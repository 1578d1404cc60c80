/**
 The lines that `SCPI_Input` hands to `SCPI_Parse`, whole or in chunks: exactly when cutting a stream does not matter.
 */
module Framing {
  import opened Base
  import opened Lexer
  import opened Scanner
  import opened LineParser
  import opened Messages
  import opened Joining
  import opened Chunks
  import opened LineEndings

  /** The lines of the complete messages of a buffer. */
  ghost function Lines(s: string): (ls: seq<string>)
    ensures ls != [] <==> MessageEnd(s).Some?
    decreases |s|
  {
    var e := MessageEnd(s);
    if e.None? then [] else [s[..e.value]] + Lines(s[e.value..])
  }

  /** What one call of `SCPI_Input` keeps, and the lines it hands to `SCPI_Parse`, for a buffer of `n` bytes. */
  ghost function Handed(n: nat, pending: string, chunk: string): (string, seq<string>) {
    if chunk == "" then ("", [pending])
    else if |pending| + |chunk| > n - 1 then ("", [])
    else (Pending(pending + chunk), Lines(pending + chunk))
  }

  /** The lines handed over for any sequence of calls. */
  ghost function FedLines(n: nat, pending: string, chunks: seq<string>): seq<string>
    decreases |chunks|
  {
    if chunks == [] then []
    else
      var (kept, ls) := Handed(n, pending, chunks[0]);
      ls + FedLines(n, kept, chunks[1..])
  }

  /** The events of lines that are parsed one after the other. */
  ghost function ParseAll(find: Lookup, ls: seq<string>): seq<Event> {
    if ls == [] then [] else ParseLine(find, ls[0]) + ParseAll(find, ls[1..])
  }

  lemma {:induction false} ParseAllAppend(find: Lookup, a: seq<string>, b: seq<string>)
    ensures ParseAll(find, a + b) == ParseAll(find, a) + ParseAll(find, b)
  {
    if a == [] {
      assert a + b == b;
    } else {
      assert (a + b)[0] == a[0] && (a + b)[1..] == a[1..] + b;
      ParseAllAppend(find, a[1..], b);
      EventsRegroup(ParseLine(find, a[0]), ParseAll(find, a[1..]), ParseAll(find, b));
    }
  }

  /** The events of the complete messages of a buffer are those of its lines. */
  lemma {:induction false} LinesExecuted(find: Lookup, s: string)
    ensures Executed(find, s) == ParseAll(find, Lines(s))
    decreases |s|
  {
    if MessageEnd(s).Some? {
      var e := MessageEnd(s).value;
      MessageFirst(find, s, e);
      LinesExecuted(find, s[e..]);
      FirstLineOf(s, e);
      assert ([s[..e]] + Lines(s[e..]))[1..] == Lines(s[e..]);
    }
  }

  /** The events that come from lines: all but the overruns of the buffer. */
  function FromLines(es: seq<Event>): seq<Event> {
    if es == [] then []
    else (if es[0].InputBufferOverrun? then [] else [es[0]]) + FromLines(es[1..])
  }

  lemma {:induction false} FromLinesAppend(a: seq<Event>, b: seq<Event>)
    ensures FromLines(a + b) == FromLines(a) + FromLines(b)
  {
    if a == [] {
      assert a + b == b;
    } else {
      assert (a + b)[0] == a[0] && (a + b)[1..] == a[1..] + b;
      FromLinesAppend(a[1..], b);
    }
  }

  lemma {:induction false} AllFromLines(es: seq<Event>)
    requires InputBufferOverrun !in es
    ensures FromLines(es) == es
  {
    if es != [] {
      assert es[0] in es && es == [es[0]] + es[1..];
      AllFromLines(es[1..]);
    }
  }

  /** No line overruns the buffer. */
  lemma {:induction false} LineNoOverrun(find: Lookup, c: Cursor, s: string)
    requires c.Inside()
    ensures InputBufferOverrun !in ParseFrom(find, c, s)
    decreases |s|
  {
    var u := ScanUnit(s);
    ParseIs(find, c, s, u);
    if 0 < u.consumed < |s| {
      LineNoOverrun(find, Handle(find, c, s[..u.consumed], u).0, s[u.consumed..]);
    }
  }

  lemma {:induction false} LinesNoOverrun(find: Lookup, ls: seq<string>)
    ensures InputBufferOverrun !in ParseAll(find, ls)
  {
    if ls != [] {
      LineNoOverrun(find, START, ls[0]);
      LinesNoOverrun(find, ls[1..]);
    }
  }

  /** One call: the bytes kept are those of the lines' call, and so are the events, but for an overrun. */
  lemma HandedEvents(find: Lookup, n: nat, pending: string, chunk: string)
    ensures var (kept, ls) := Handed(n, pending, chunk); var (kept', es) := Feed(find, n, pending, chunk);
      kept' == kept && FromLines(es) == ParseAll(find, ls) && InputBufferOverrun !in ParseAll(find, ls)
      && (es == [InputBufferOverrun] || es == ParseAll(find, ls))
  {
    var ls := Handed(n, pending, chunk).1;
    LinesNoOverrun(find, ls);
    AllFromLines(ParseAll(find, ls));
    if chunk == "" {
      assert [pending][1..] == [] && ParseLine(find, pending) + [] == ParseLine(find, pending);
    } else {
      LinesExecuted(find, pending + chunk);
    }
  }

  /** Whatever the calls, flushes and overruns among them: the events are those of the lines, but for the overruns. */
  lemma {:induction false} FedEvents(find: Lookup, n: nat, pending: string, chunks: seq<string>)
    ensures FromLines(FeedAll(find, n, pending, chunks).1) == ParseAll(find, FedLines(n, pending, chunks))
    ensures NoOverrun(n, pending, chunks) ==>
      FeedAll(find, n, pending, chunks).1 == ParseAll(find, FedLines(n, pending, chunks))
    decreases |chunks|
  {
    if chunks != [] {
      var (kept, ls) := Handed(n, pending, chunks[0]);
      HandedEvents(find, n, pending, chunks[0]);
      FedEvents(find, n, kept, chunks[1..]);
      ParseAllAppend(find, ls, FedLines(n, kept, chunks[1..]));
      FromLinesAppend(Feed(find, n, pending, chunks[0]).1, FeedAll(find, n, kept, chunks[1..]).1);
      if NoOverrun(n, pending, chunks) {
        FeedFits(find, n, pending, chunks[0]);
        LinesExecuted(find, pending + chunks[0]);
      }
    }
  }

  predicate EndsWithReturn(l: string) {
    l != "" && l[|l| - 1] == '\r'
  }

  /** A line feed that was cut off a carriage return put back to its line. */
  function Joined(ls: seq<string>): seq<string> {
    if |ls| <= 1 then ls
    else if EndsWithReturn(ls[0]) && ls[1] == LF then [ls[0] + LF] + Joined(ls[2..])
    else [ls[0]] + Joined(ls[1..])
  }

  /** From an empty buffer of any size, every way to cut the stream that never overruns hands over the same lines. */
  ghost predicate LinesAgree(t: string) {
    forall n: nat, chunks | Flat(chunks) == t && NoOverrun(n, "", chunks) ::
      Joined(FedLines(n, "", chunks)) == Joined(Lines(t))
  }

  lemma JoinedFirst(l: string, a: seq<string>)
    ensures Joined([l] + a) ==
      if a != [] && EndsWithReturn(l) && a[0] == LF then [l + LF] + Joined(a[1..]) else [l] + Joined(a)
  {
    var ls := [l] + a;
    if a != [] {
      assert ls[1..] == a && ls[2..] == a[1..];
    }
  }

  /** A line feed that stands alone stays alone. */
  lemma JoinedLineFeed(a: seq<string>)
    ensures a == [] <==> Joined(a) == []
    ensures a != [] ==> (Joined(a)[0] == LF <==> a[0] == LF)
    ensures a != [] && a[0] == LF ==> Joined(a)[1..] == Joined(a[1..])
  {
    if a != [] {
      assert a == [a[0]] + a[1..];
      JoinedFirst(a[0], a[1..]);
    }
  }

  lemma JoinedBehind(l: string, a: seq<string>, b: seq<string>)
    requires Joined(a) == Joined(b)
    ensures Joined([l] + a) == Joined([l] + b)
  {
    JoinedFirst(l, a);
    JoinedFirst(l, b);
    JoinedLineFeed(a);
    JoinedLineFeed(b);
  }

  lemma FirstLineOf(s: string, e: nat)
    requires MessageEnd(s) == Some(e)
    ensures Lines(s) == [s[..e]] + Lines(s[e..]) && Pending(s) == Pending(s[e..])
  {
  }

  /** Complete lines can be handed over before the rest of a steady stream arrives. */
  lemma {:induction false} LinesSplit(s: string, x: string)
    requires Steady(s + x)
    ensures Joined(Lines(s + x)) == Joined(Lines(s) + Lines(Pending(s) + x))
    decreases |s|
  {
    SteadyAt(s + x, s, x);
    var e := MessageEnd(s);
    if e.None? {
      assert [] + Lines(s + x) == Lines(s + x);
    } else if MessageEnd(s + x) == e {
      LinesSplit(s[e.value..], x) by {
        AppendSlices(s, x, e.value);
      }
      SameFirstLine(s, x, e.value, s[e.value..]);
    } else {
      CutLine(s, x);
    }
  }

  lemma SameFirstLine(s: string, x: string, e: nat, r: string)
    requires MessageEnd(s) == MessageEnd(s + x) == Some(e) && r == s[e..]
    requires Joined(Lines(r + x)) == Joined(Lines(r) + Lines(Pending(r) + x))
    ensures Joined(Lines(s + x)) == Joined(Lines(s) + Lines(Pending(s) + x))
  {
    AppendSlices(s, x, e);
    FirstLineOf(s, e);
    FirstLineOf(s + x, e);
    PutInFront(s[..e], Lines(r + x), Lines(r), Lines(Pending(r) + x));
  }

  lemma PutInFront(l: string, all: seq<string>, a: seq<string>, b: seq<string>)
    requires Joined(all) == Joined(a + b)
    ensures Joined([l] + all) == Joined(([l] + a) + b)
  {
    JoinedBehind(l, all, a + b);
    assert [l] + (a + b) == ([l] + a) + b;
  }

  lemma CutLine(s: string, x: string)
    requires MessageEnd(s) == Some(|s|) && MessageEnd(s + x) == Some(|s| + 1)
    requires EndsWithReturn(s) && Sees(x, 0, '\n')
    ensures Joined(Lines(s + x)) == Joined(Lines(s) + Lines(Pending(s) + x))
  {
    CutSlices(s, x);
    FirstLineOf(s + x, |s| + 1);
    LineFeedEnd(x);
    FirstLineOf(x, 1);
    assert x[..1] == LF;
    FirstLineOf(s, |s|);
    SliceAll(s);
    SliceAll(x);
    EmptyHasNone();
    assert Lines(s) == [s] && Pending(s) == "";
    JoinedFirst(s + LF, Lines(x[1..]));
    JoinedFirst(s, [LF] + Lines(x[1..]));
    assert ([LF] + Lines(x[1..]))[1..] == Lines(x[1..]);
    assert [s] + ([LF] + Lines(x[1..])) == Lines(s) + Lines(x);
  }

  lemma {:induction false} JoinedBefore(front: seq<string>, a: seq<string>, b: seq<string>)
    requires Joined(a) == Joined(b)
    ensures Joined(front + a) == Joined(front + b)
    decreases |front|
  {
    if front == [] {
      assert front + a == a && front + b == b;
    } else {
      JoinedBefore(front[1..], a, b);
      JoinedBehind(front[0], front[1..] + a, front[1..] + b);
      assert [front[0]] + (front[1..] + a) == front + a && [front[0]] + (front[1..] + b) == front + b;
    }
  }

  lemma {:induction false} SteadyLines(n: nat, pending: string, chunks: seq<string>)
    requires Steady(pending + Flat(chunks)) && MessageEnd(pending) == None && NoOverrun(n, pending, chunks)
    ensures Joined(FedLines(n, pending, chunks)) == Joined(Lines(pending + Flat(chunks)))
    decreases |chunks|
  {
    if chunks == [] {
      SliceAll(pending);
    } else {
      var s, x := pending + chunks[0], Flat(chunks[1..]);
      FlatFirst(pending, chunks);
      SteadyRest(s, x);
      SteadyLines(n, Pending(s), chunks[1..]);
      LinesSplit(s, x);
      JoinedBefore(Lines(s), FedLines(n, Pending(s), chunks[1..]), Lines(Pending(s) + x));
    }
  }

  /** A message end takes the line feed behind its carriage return along. */
  lemma {:induction false} WholeNewline(s: string, e: nat)
    requires MessageEnd(s) == Some(e) && s[e - 1] == '\r'
    ensures !Sees(s, e, '\n')
    decreases |s|
  {
    var n := ScanUnit(s).consumed;
    NextUnit(s);
    if ScanUnit(s).termination == NEWLINE {
      UnitNewline(s);
    } else {
      assert e < |s| ==> s[n..][e - n] == s[e];
      WholeNewline(s[n..], e - n);
    }
  }

  lemma UnitNewline(s: string)
    ensures var u := ScanUnit(s);
      u.termination == NEWLINE && u.consumed > 0 && s[u.consumed - 1] == '\r' ==> !Sees(s, u.consumed, '\n')
  {
    ScanUnitIs(s);
  }

  /** The first line that is handed over, joined with a line feed if one was cut off. */
  lemma FirstJoined(l: string, a: seq<string>)
    ensures Joined([l] + a) != [] && var first := Joined([l] + a)[0];
      first == l || (first == l + LF && EndsWithReturn(l) && a != [] && a[0] == LF)
  {
    JoinedFirst(l, a);
  }

  lemma LineFeedNext(s: string, e: nat)
    requires MessageEnd(s) == Some(e) && Lines(s[e..]) != [] && Lines(s[e..])[0] == LF
    ensures Sees(s, e, '\n')
  {
    var f := MessageEnd(s[e..]).value;
    FirstLineOf(s[e..], f);
    assert s[e..][..f] == LF;
    assert s[e..][0] == LF[0];
  }

  /** Cutting where a message can end too early hands over another line. */
  lemma EarlyLine(n: nat, s: string, x: string)
    requires !Kept(s, x) && |s + x| < n
    ensures Flat([s, x]) == s + x && NoOverrun(n, "", [s, x])
    ensures Joined(FedLines(n, "", [s, x])) != Joined(Lines(s + x))
  {
    var e := MessageEnd(s).value;
    SliceAll(s);
    EmptyHasNone();
    assert s != "" && x != "";
    TwoFit(n, s, x);
    var more := EarlyFirst(n, s, x, e);
    if MessageEnd(s + x).Some? {
      SameLine(s, x, e, MessageEnd(s + x).value, more);
    } else {
      FirstJoined(s[..e], more);
    }
  }

  lemma EarlyFirst(n: nat, s: string, x: string, e: nat) returns (more: seq<string>)
    requires MessageEnd(s) == Some(e) && |s| < n
    ensures FedLines(n, "", [s, x]) == [s[..e]] + more
  {
    assert [s, x][1..] == [x];
    SliceAll(s);
    FirstLineOf(s, e);
    more := Lines(s[e..]) + FedLines(n, Pending(s), [x]);
    assert Lines(s) + FedLines(n, Pending(s), [x]) == [s[..e]] + more;
  }

  lemma SameLine(s: string, x: string, e: nat, f: nat, more: seq<string>)
    requires !Kept(s, x) && MessageEnd(s) == Some(e) && MessageEnd(s + x) == Some(f)
    ensures Joined([s[..e]] + more) != Joined(Lines(s + x))
  {
    var t := s + x;
    FirstLineOf(t, f);
    if Joined([s[..e]] + more) == Joined([t[..f]] + Lines(t[f..])) {
      SameFront(s[..e], more, t[..f], Lines(t[f..]));
      if s[..e] == t[..f] + LF {
        LineFeedNext(t, f);
        WholeNewline(t, f);
        assert false;
      }
      LineFeedBehind(s, x, e, f);
      assert false;
    }
  }

  /** Lists that are the same once joined begin with the same line, but for a line feed. */
  lemma SameFront(l: string, a: seq<string>, m: string, b: seq<string>)
    requires Joined([l] + a) == Joined([m] + b)
    ensures || l == m
      || (m == l + LF && EndsWithReturn(l))
      || (l == m + LF && EndsWithReturn(m) && b != [] && b[0] == LF)
  {
    FirstJoined(l, a);
    FirstJoined(m, b);
    assert (l + LF)[..|l|] == l && (m + LF)[..|m|] == m;
  }

  /** A line that is the same but for a line feed was kept. */
  lemma LineFeedBehind(s: string, x: string, e: nat, f: nat)
    requires MessageEnd(s) == Some(e) && MessageEnd(s + x) == Some(f)
    requires s[..e] == (s + x)[..f] || ((s + x)[..f] == s[..e] + LF && EndsWithReturn(s[..e]))
    ensures Kept(s, x)
  {
    var t := s + x;
    assert |t[..f]| == f && |s[..e]| == e;
    if f == e + 1 {
      assert t[e] == t[..f][e] == '\n' && s[e - 1] == s[..e][e - 1];
      if e < |s| {
        WholeNewline(s, e);
        assert false;
      }
    }
  }

  /** How to cut a stream that is not steady so that other lines are handed over. */
  lemma {:induction false} BadLines(n: nat, t: string) returns (chunks: seq<string>)
    requires !Steady(t) && |t| < n
    ensures Flat(chunks) == t && NoOverrun(n, "", chunks)
    ensures Joined(FedLines(n, "", chunks)) != Joined(Lines(t))
    decreases |t|
  {
    if i :| 0 <= i <= |t| && !Kept(t[..i], t[i..]) {
      assert t == t[..i] + t[i..];
      EarlyLine(n, t[..i], t[i..]);
      return [t[..i], t[i..]];
    }
    var e := MessageEnd(t).value;
    var later := BadLines(n, t[e..]);
    LaterBad(n, t, e, later);
    chunks := [t[..e]] + later;
  }

  lemma LaterBad(n: nat, t: string, e: nat, later: seq<string>)
    requires MessageEnd(t) == Some(e) && |t| < n && Flat(later) == t[e..] && NoOverrun(n, "", later)
    requires Joined(FedLines(n, "", later)) != Joined(Lines(t[e..]))
    ensures Flat([t[..e]] + later) == t && NoOverrun(n, "", [t[..e]] + later)
    ensures Joined(FedLines(n, "", [t[..e]] + later)) != Joined(Lines(t))
  {
    MessageFits(n, t, e, later);
    FedMessage(n, t, e, later);
    FirstLineOf(t, e);
    LaterLines(t, e, FedLines(n, "", later));
  }

  lemma FedMessage(n: nat, t: string, e: nat, chunks: seq<string>)
    requires MessageEnd(t) == Some(e) && |t| < n
    ensures FedLines(n, "", [t[..e]] + chunks) == [t[..e]] + FedLines(n, "", chunks)
  {
    var l := t[..e];
    MessageAlone(t, e);
    FirstLineOf(l, e);
    SliceAll(l);
    EmptyHasNone();
    assert Lines(l) == [l] && Pending(l) == "";
    assert ([l] + chunks)[1..] == chunks;
  }

  /** Lines that differ behind the first one still differ with it. */
  lemma LaterLines(t: string, e: nat, a: seq<string>)
    requires MessageEnd(t) == Some(e) && Joined(a) != Joined(Lines(t[e..]))
    ensures Joined([t[..e]] + a) != Joined([t[..e]] + Lines(t[e..]))
  {
    var l, b := t[..e], Lines(t[e..]);
    JoinedFirst(l, a);
    JoinedFirst(l, b);
    if EndsWithReturn(l) && b != [] && b[0] == LF {
      LineFeedNext(t, e);
      WholeNewline(t, e);
      assert false;
    }
    assert ([l] + Joined(a))[1..] == Joined(a) && ([l] + Joined(b))[1..] == Joined(b);
    assert EndsWithReturn(l) ==> l + LF != l;
  }

  /** All cuts of a stream that fit hand over the same lines exactly when none of its messages can end too early. */
  lemma FramingExact(t: string)
    ensures LinesAgree(t) <==> Steady(t)
  {
    if Steady(t) {
      SliceAll(t);
      EmptyHasNone();
      forall n: nat, chunks | Flat(chunks) == t && NoOverrun(n, "", chunks)
        ensures Joined(FedLines(n, "", chunks)) == Joined(Lines(t))
      {
        SteadyLines(n, "", chunks);
      }
    } else {
      var chunks := BadLines(|t| + 1, t);
    }
  }
}
