/** Program messages as a controller writes them, and what the instrument does with them, however they arrive. */
module Conversations {
  import opened Base
  import opened Lexer
  import opened Scanner
  import opened Extension
  import opened Messages
  import opened LineParser
  import opened HeaderPaths
  import opened Joining
  import opened Chunks
  import opened Parser
  import opened Grammar
  import opened Items
  import opened Syntax

  /** Units that semicolons separate and a newline ends. */
  predicate IsMessage(us: seq<UnitText>) {
    && us != [] && (forall i | 0 <= i < |us| :: us[i].Valid())
    && (forall i | 0 <= i < |us| - 1 :: us[i].ending.Semicolon?)
    && us[|us| - 1].ending.Kind() == NEWLINE
  }

  function MessageText(us: seq<UnitText>): string {
    if us == [] then "" else us[0].Text() + MessageText(us[1..])
  }

  /** The program data that a command is given: the parameters, without the bytes the scanner does not count. */
  function DataOf(u: UnitText): string {
    EntriesText(u.params)[..Min(EntriesCounted(u.params), |EntriesText(u.params)|)]
  }

  /** What a unit does behind the header `prev`: its command is executed, or its text is reported. */
  function Done(find: Lookup, prev: string, u: UnitText): Event {
    var h := Resolved(prev, u);
    if find(h).Some? then Execute(find(h).value, h, DataOf(u)) else UndefinedHeader(TrimNewlines(u.Text()))
  }

  /** The header of a unit, in the path of the header before it. */
  function Resolved(prev: string, u: UnitText): string {
    if u.header.Text() == "" then "" else Resolve(prev, u.header.Text())
  }

  function Performed(find: Lookup, prev: string, us: seq<UnitText>): seq<Event>
    decreases |us|
  {
    if us == [] then []
    else
      var h := Resolved(prev, us[0]);
      [Done(find, prev, us[0])] + Performed(find, if find(h).Some? then h else prev, us[1..])
  }

  lemma {:induction false} CountedFits(es: seq<Entry>)
    ensures EntriesCounted(es) <= |EntriesText(es)|
  {
    if |es| > 1 {
      CountedFits(es[1..]);
    }
  }

  /** The first unit of a text, and what follows it. */
  lemma UnitFirst(u: UnitText, rest: string)
    requires u.Valid() && u.ending.Before(rest)
    ensures var s := u.Text() + rest;
      ScanUnit(s) == u.AsUnit() && s[..|u.Text()|] == u.Text() && s[|u.Text()|..] == rest && u.Text() != ""
  {
    UnitIsScanned(u, rest);
    HeaderHasText(u);
  }

  lemma HeaderHasText(u: UnitText)
    requires u.Valid()
    ensures u.header.Text() != "" && u.Text() != ""
  {
  }

  lemma MessageFirstUnit(us: seq<UnitText>, rest: string)
    requires us != []
    ensures MessageText(us) + rest == us[0].Text() + (MessageText(us[1..]) + rest)
  {
  }

  lemma TailIsMessage(us: seq<UnitText>)
    requires IsMessage(us) && |us| > 1
    ensures IsMessage(us[1..]) && us[1..][|us| - 2] == us[|us| - 1] && us[0].ending.Semicolon?
  {
  }

  /** The input loop finds the end of a message at its newline and nowhere before, whatever follows. */
  lemma {:induction false} EndIsFound(us: seq<UnitText>, rest: string)
    requires IsMessage(us) && us[|us| - 1].ending.Before(rest)
    ensures MessageEnd(MessageText(us) + rest) == Some(|MessageText(us)|)
    decreases |us|
  {
    var u, s := us[0], MessageText(us) + rest;
    var more := MessageText(us[1..]) + rest;
    MessageFirstUnit(us, rest);
    if |us| > 1 {
      TailIsMessage(us);
      EndIsFound(us[1..], rest);
    } else {
      assert more == rest;
    }
    UnitFirst(u, more);
    NextUnit(s);
  }

  /** The units found in a message are the units it was written from. */
  lemma {:induction false} UnitsAreFound(us: seq<UnitText>)
    requires IsMessage(us)
    ensures var found := Units(MessageText(us));
      |found| == |us| && forall i | 0 <= i < |us| :: found[i] == us[i].AsUnit()
    decreases |us|
  {
    var more := MessageText(us[1..]);
    assert more + "" == more;
    MessageFirstUnit(us, "");
    if |us| > 1 {
      TailIsMessage(us);
      UnitsAreFound(us[1..]);
      MessageNotEmpty(us[1..]);
    }
    UnitFirst(us[0], more);
    UnitsOf(us[0].Text() + more, us[0].AsUnit(), more);
  }

  lemma MessageNotEmpty(us: seq<UnitText>)
    requires us != [] && us[0].Valid()
    ensures MessageText(us) != ""
  {
    HeaderHasText(us[0]);
  }

  lemma UnitsOf(s: string, u: Unit, more: string)
    requires u == ScanUnit(s) && s[u.consumed..] == more
    ensures Units(s) == [u] + if more == "" then [] else Units(more)
  {
    assert [u] + [] == [u];
  }

  lemma TextParts(u: UnitText)
    requires u.Valid()
    ensures var t, k := u.Text(), u.AsUnit();
      && k.header.ptr + k.header.len <= |t| && Text(t, k.header) == u.header.Text()
      && k.data.ptr + k.data.len <= |t| && Text(t, k.data) == DataOf(u) && Spanned(k, t)
  {
    CountedFits(u.params);
    SlicesOf(u.lead, u.header.Text(), u.gap, EntriesText(u.params), u.ending.Text(), EntriesCounted(u.params));
  }

  lemma SlicesOf(a: string, b: string, c: string, d: string, e: string, n: nat)
    requires n <= |d|
    ensures var t := a + (b + (c + d)) + e;
      && t[|a|..|a| + |b|] == b && t[|a| + |b| + |c|..|a| + |b| + |c| + n] == d[..n]
  {
    var t := a + (b + (c + d)) + e;
    assert t == (a + b + c) + d + e;
    assert t[|a + b + c|..][..n] == d[..n];
  }

  /** What the parser does with one unit. */
  lemma UnitIsHandled(find: Lookup, prev: string, u: UnitText)
    requires u.Valid()
    ensures Spanned(u.AsUnit(), u.Text())
    ensures var h := Resolved(prev, u);
      PureHandle(find, prev, u.Text(), u.AsUnit()) == (if find(h).Some? then h else prev, [Done(find, prev, u)])
  {
    TextParts(u);
    HeaderHasText(u);
  }

  lemma PureIs(find: Lookup, prev: string, s: string, u: Unit, t: string, more: string)
    requires u == ScanUnit(s) && t == s[..u.consumed] && more == s[u.consumed..] && u.consumed > 0
    ensures Spanned(u, t) && var (header, es) := PureHandle(find, prev, t, u);
      PureParse(find, prev, s) == if more == "" then es else es + PureParse(find, header, more)
  {
    FirstSpanned(s);
  }

  /** The first unit is handled, and parsing goes on behind it. */
  lemma UnitThenMore(find: Lookup, prev: string, u: UnitText, more: string)
    requires u.Valid() && u.ending.Before(more)
    ensures var h := Resolved(prev, u); var next := if find(h).Some? then h else prev;
      PureParse(find, prev, u.Text() + more) ==
      [Done(find, prev, u)] + if more == "" then [] else PureParse(find, next, more)
  {
    UnitIsHandled(find, prev, u);
    UnitFirst(u, more);
    PureIs(find, prev, u.Text() + more, u.AsUnit(), u.Text(), more);
    assert [Done(find, prev, u)] + [] == [Done(find, prev, u)];
  }

  /** Parsing a message does what its units say, one by one, each header in the path of the one before. */
  lemma {:induction false} MessageIsPerformed(find: Lookup, prev: string, us: seq<UnitText>)
    requires IsMessage(us)
    ensures PureParse(find, prev, MessageText(us)) == Performed(find, prev, us)
    decreases |us|
  {
    var u, more := us[0], MessageText(us[1..]);
    assert MessageText(us) == u.Text() + more;
    if |us| > 1 {
      var h := Resolved(prev, u);
      TailIsMessage(us);
      MessageNotEmpty(us[1..]);
      MessageIsPerformed(find, if find(h).Some? then h else prev, us[1..]);
    }
    UnitThenMore(find, prev, u, more);
  }

  /** Every header of a message is found, in the path of the one before. */
  predicate AllDefined(find: Lookup, prev: string, us: seq<UnitText>)
    decreases |us|
  {
    us == [] || (find(Resolved(prev, us[0])).Some? && AllDefined(find, Resolved(prev, us[0]), us[1..]))
  }

  lemma {:induction false} DefinedIsFound(find: Lookup, prev: string, us: seq<UnitText>)
    requires AllDefined(find, prev, us)
    ensures AllFound(Performed(find, prev, us)) && |Performed(find, prev, us)| == |us|
    decreases |us|
  {
    if us != [] {
      DefinedIsFound(find, Resolved(prev, us[0]), us[1..]);
    }
  }

  /** In place too: when all headers are found, the line is executed as it was written. */
  lemma LineIsPerformed(find: Lookup, us: seq<UnitText>)
    requires IsMessage(us) && AllDefined(find, "", us)
    ensures ParseLine(find, MessageText(us)) == Performed(find, "", us)
  {
    MessageIsPerformed(find, "", us);
    DefinedIsFound(find, "", us);
    ParseLineRefines(find, MessageText(us));
  }

  /** No quoted text among the parameters holds a newline character. */
  predicate OneLined(es: seq<Entry>) {
    forall i | 0 <= i < |es| :: es[i].item.Quoted? ==> '\r' !in es[i].item.text && '\n' !in es[i].item.text
  }

  lemma {:induction false} DoubledHolds(text: string, quote: char)
    ensures forall c | c in Quoting.Doubled(text, quote) :: c in text || c == quote
  {
    if text != "" {
      DoubledHolds(text[1..], quote);
    }
  }

  lemma QuotedIsClear(s: string, p: nat, it: Item)
    requires it.Quoted? && it.Valid() && At(s, p, it.Text()) && '\r' !in it.text && '\n' !in it.text
    ensures p + |it.Text()| <= |s| && Clear(s, p, p + |it.Text()|)
  {
    DoubledHolds(it.text, it.quote);
    AtIndex(s, p, it.Text());
    forall i | p <= i < p + |it.Text()| ensures !IsNL(s[i]) {
      assert s[i] == it.Text()[i - p];
      assert it.Text()[i - p] in it.Text();
    }
  }

  lemma PlainStep(s: string, p: nat, k: Token, n: nat)
    requires p <= |s| && ParseData(s, p).token == k && ParseData(s, p).pos == n
    requires IsString(k) && k.ptr + k.len <= |s| ==> Clear(s, k.ptr, k.ptr + k.len)
    requires Sees(s, n, ',') ==> PlainData(s, n + 1)
    ensures PlainData(s, p)
  {
  }

  lemma FirstIsPlain(s: string, p: nat, es: seq<Entry>, q: nat, n: nat)
    requires Listed(s, p, es, q) && At(s, p, EntriesText(es)) && OneLined(es) && n == p + |es[0].Text()|
    requires Sees(s, n, ',') ==> PlainData(s, n + 1)
    ensures p <= |s| && PlainData(s, p)
  {
    FirstFound(s, p, es, q, n);
    EntriesFirst(s, p, es, es[0].Text(), n);
    EntryIsPlain(s, p, es[0]);
    PlainStep(s, p, es[0].TokenAt(p), n);
  }

  /** No parameter is a string with a newline in it. */
  lemma {:induction false} EntriesArePlain(s: string, p: nat, es: seq<Entry>, q: nat)
    requires Listed(s, p, es, q) && At(s, p, EntriesText(es)) && OneLined(es)
    ensures p <= |s| && PlainData(s, p)
    decreases |es|
  {
    var n := p + |es[0].Text()|;
    FirstFound(s, p, es, q, n);
    if |es| > 1 {
      EntriesArePlain(s, n + 1, es[1..], q);
    }
    FirstIsPlain(s, p, es, q, n);
  }

  lemma EntryIsPlain(s: string, p: nat, e: Entry)
    requires e.Valid() && At(s, p, e.Text()) && e.item.Front() <= |e.item.Text()|
    requires e.item.Quoted? ==> '\r' !in e.item.text && '\n' !in e.item.text
    ensures var k := e.TokenAt(p); IsString(k) && k.ptr + k.len <= |s| ==> Clear(s, k.ptr, k.ptr + k.len)
  {
    AtParts(s, p, e.lead, e.item.Text() + e.after);
    AtParts(s, p + |e.lead|, e.item.Text(), e.after);
    if e.item.Quoted? {
      QuotedIsClear(s, p + |e.lead|, e.item);
    }
  }

  lemma PlainUnitBy(s: string, a: nat, b: nat, w: nat)
    requires Run(s, 0, Blank) == a && LexProgramHeader(s, a).pos == b && Run(s, b, Blank) == w && PlainData(s, w)
    ensures PlainUnit(s)
  {
  }

  lemma DataIsPlain(s: string, u: UnitText, a: nat, b: nat, w: nat, q: nat)
    requires u.Valid() && Placed(s, u, a, b, w, q) && OneLined(u.params)
    ensures w <= |s| && PlainData(s, w)
  {
    EndsStop(s, q, u.ending);
    if u.params != [] {
      EntriesArePlain(s, w, u.params, q);
    } else {
      NothingIsPlainData(s, q, u.ending);
    }
  }

  lemma NothingIsPlainData(s: string, q: nat, ending: Ending)
    requires Ends(s, q, ending)
    ensures PlainData(s, q)
  {
    NothingIsData(s, q, ending);
    EndsStop(s, q, ending);
    NothingIsThere(s, q);
    PlainStep(s, q, Token(UNKNOWN, q, 0), q);
  }

  lemma UnitIsPlain(u: UnitText, rest: string)
    requires u.Valid() && u.ending.Before(rest) && OneLined(u.params)
    ensures PlainUnit(u.Text() + rest)
  {
    var s := u.Text() + rest;
    var a, b, w, q := Places(u, rest);
    HeaderStops(s, u, a, b, w, q);
    HeaderIsToken(s, a, u.header, b);
    RunOver(s, 0, u.lead, Blank);
    DataIsPlain(s, u, a, b, w, q);
    PlainUnitBy(s, a, b, w);
  }

  predicate AllOneLined(us: seq<UnitText>) {
    forall i | 0 <= i < |us| :: OneLined(us[i].params)
  }

  /** A unit in front of what is plain. */
  lemma UnitThenPlain(u: UnitText, more: string)
    requires u.Valid() && u.ending.Before(more) && OneLined(u.params) && PlainUnits(more)
    ensures PlainUnits(u.Text() + more)
  {
    UnitIsPlain(u, more);
    UnitFirst(u, more);
    PlainFirst(u.Text() + more, more);
  }

  lemma {:induction false} MessageIsPlain(us: seq<UnitText>, rest: string)
    requires IsMessage(us) && us[|us| - 1].ending.Before(rest) && AllOneLined(us) && PlainUnits(rest)
    ensures PlainUnits(MessageText(us) + rest)
    decreases |us|
  {
    MessageFirstUnit(us, rest);
    if |us| > 1 {
      TailIsMessage(us);
      MessageIsPlain(us[1..], rest);
      UnitThenPlain(us[0], MessageText(us[1..]) + rest);
    } else {
      OneUnit(us, rest);
      UnitThenPlain(us[0], rest);
    }
  }

  lemma OneUnit(us: seq<UnitText>, rest: string)
    requires |us| == 1
    ensures MessageText(us[1..]) + rest == rest
  {
  }

  lemma PlainFirst(s: string, more: string)
    requires PlainUnit(s) && s[ScanUnit(s).consumed..] == more && PlainUnits(more)
    ensures PlainUnits(s)
  {
  }

  /** A conversation: messages, one behind the other. */
  predicate IsStream(ms: seq<seq<UnitText>>) {
    forall i | 0 <= i < |ms| :: IsMessage(ms[i]) && AllOneLined(ms[i])
  }

  function StreamText(ms: seq<seq<UnitText>>): string {
    if ms == [] then "" else MessageText(ms[0]) + StreamText(ms[1..])
  }

  predicate StreamDefined(find: Lookup, ms: seq<seq<UnitText>>) {
    forall i | 0 <= i < |ms| :: AllDefined(find, "", ms[i])
  }

  function StreamPerformed(find: Lookup, ms: seq<seq<UnitText>>): seq<Event> {
    if ms == [] then [] else Performed(find, "", ms[0]) + StreamPerformed(find, ms[1..])
  }

  /** No message begins with a line feed, so a carriage return ends the message before it. */
  lemma StreamBegins(ms: seq<seq<UnitText>>)
    requires IsStream(ms)
    ensures !Sees(StreamText(ms), 0, '\n')
  {
    if ms != [] {
      var u := ms[0][0];
      var more := MessageText(ms[0][1..]) + StreamText(ms[1..]);
      MessageFirstUnit(ms[0], StreamText(ms[1..]));
      UnitBegins(u, more);
    }
  }

  lemma UnitBegins(u: UnitText, more: string)
    requires u.Valid()
    ensures !Sees(u.Text() + more, 0, '\n')
  {
    HeaderHasText(u);
    assert (u.Text() + more)[0] == if u.lead != "" then u.lead[0] else u.header.Text()[0];
  }

  /** The first message of a stream, and the stream behind it. */
  lemma StreamFirst(ms: seq<seq<UnitText>>)
    requires IsStream(ms) && ms != []
    ensures IsStream(ms[1..]) && IsMessage(ms[0]) && AllOneLined(ms[0])
    ensures StreamText(ms) == MessageText(ms[0]) + StreamText(ms[1..])
    ensures ms[0][|ms[0]| - 1].ending.Before(StreamText(ms[1..]))
  {
    StreamBegins(ms[1..]);
  }

  lemma {:induction false} StreamIsPlain(ms: seq<seq<UnitText>>)
    requires IsStream(ms)
    ensures PlainUnits(StreamText(ms))
  {
    if ms == [] {
      NothingIsPlain();
    } else {
      StreamFirst(ms);
      StreamIsPlain(ms[1..]);
      MessageIsPlain(ms[0], StreamText(ms[1..]));
    }
  }

  lemma NothingIsPlain()
    ensures PlainUnits("")
  {
  }

  lemma FirstIsPerformed(find: Lookup, ms: seq<seq<UnitText>>)
    requires IsStream(ms) && ms != [] && AllDefined(find, "", ms[0])
    ensures var s, more := StreamText(ms), StreamText(ms[1..]);
      Executed(find, s) == Performed(find, "", ms[0]) + Executed(find, more) && Pending(s) == Pending(more)
  {
    StreamFirst(ms);
    EndIsFound(ms[0], StreamText(ms[1..]));
    LineIsPerformed(find, ms[0]);
    MessageThenRest(find, MessageText(ms[0]), StreamText(ms[1..]));
  }

  /** The messages of a stream are executed one by one, and nothing is left. */
  lemma {:induction false} StreamIsPerformed(find: Lookup, ms: seq<seq<UnitText>>)
    requires IsStream(ms) && StreamDefined(find, ms)
    ensures Executed(find, StreamText(ms)) == StreamPerformed(find, ms) && Pending(StreamText(ms)) == ""
  {
    if ms == [] {
      EmptyHasNone();
      NoMessage(find, "");
    } else {
      StreamIsPerformed(find, ms[1..]);
      FirstIsPerformed(find, ms);
    }
  }

  lemma MessageThenRest(find: Lookup, m: string, more: string)
    requires MessageEnd(m + more) == Some(|m|)
    ensures Executed(find, m + more) == ParseLine(find, m) + Executed(find, more) && Pending(m + more) == Pending(more)
  {
    assert (m + more)[..|m|] == m && (m + more)[|m|..] == more;
    MessageFirst(find, m + more, |m|);
  }

  /**
   Whatever a controller writes, with headers that are all defined and no newline in a quoted text, is executed as it
   was written, however the bytes are cut on their way into the input buffer, as long as they find room there.
   */
  lemma ConversationExact(find: Lookup, ms: seq<seq<UnitText>>, n: nat, chunks: seq<string>)
    requires IsStream(ms) && StreamDefined(find, ms) && Flat(chunks) == StreamText(ms) && NoOverrun(n, "", chunks)
    ensures FeedAll(find, n, "", chunks) == ("", StreamPerformed(find, ms))
  {
    StreamIsPlain(ms);
    PlainSteady(StreamText(ms));
    SteadyAgrees(find, StreamText(ms));
    StreamIsPerformed(find, ms);
  }

  /** The same of the parser itself, which works in place on its buffer. */
  method Converse(parser: Parser, ghost ms: seq<seq<UnitText>>, chunks: seq<string>)
    requires parser.Valid() && parser.position == 0 && NoOverrun(parser.buffer.Length, "", chunks)
    requires IsStream(ms) && StreamDefined(Table(parser.cmds), ms) && Flat(chunks) == StreamText(ms)
    modifies parser`position, parser`log, parser.buffer
    ensures parser.Valid() && parser.position == 0
    ensures parser.log == old(parser.log) + StreamPerformed(Table(parser.cmds), ms)
  {
    StreamIsPlain(ms);
    PlainSteady(StreamText(ms));
    StreamIsPerformed(Table(parser.cmds), ms);
    assert parser.buffer[..0] == "";
    parser.InputAll(chunks);
  }
}
