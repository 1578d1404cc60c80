/** What the parser reports becomes errors in the queue. */
module Reports {
  import opened Base
  import opened ErrorCodes
  import opened ErrorQueue
  import opened Errors
  import opened LineParser
  import Chunks
  import HeaderPaths
  import LineEndings

  /** The text up to its first NUL, as a C string is read. */
  function UpToNul(text: string): (t: string)
    ensures NUL !in t
  {
    text[..StrNLen(text, |text|)]
  }

  /** The error that an event pushes; what command callbacks push is not part of the event. */
  function ReportOf(e: Event): Option<Step> {
    match e
    case Execute(_, _, _) => None
    case InvalidCharacter => Some(Push(INVALID_CHARACTER, None))
    case UndefinedHeader(text) => Some(Push(UNDEFINED_HEADER, Some(UpToNul(text))))
    case InputBufferOverrun => Some(Push(INPUT_BUFFER_OVERRUN, None))
  }

  function ReportsOf(es: seq<Event>): seq<Step> {
    if es == [] then []
    else (if ReportOf(es[0]).Some? then [ReportOf(es[0]).value] else []) + ReportsOf(es[1..])
  }

  predicate Pushes(ps: seq<Step>) {
    forall i | 0 <= i < |ps| :: ps[i].Push? && TextStep(ps[i])
  }

  lemma {:induction false} ReportsArePushes(es: seq<Event>)
    ensures Pushes(ReportsOf(es))
  {
    if es != [] {
      ReportsArePushes(es[1..]);
    }
  }

  /** Whatever arrives, the combined invariant of queue, heap budget and status registers is kept. */
  lemma InputKeeps(find: Lookup, n: nat, pending: string, chunks: seq<string>, s: State)
    requires Inv(s) && s.size > 0
    ensures Inv(Run(s, ReportsOf(Chunks.FeedAll(find, n, pending, chunks).1)))
  {
    var ps := ReportsOf(Chunks.FeedAll(find, n, pending, chunks).1);
    ReportsArePushes(Chunks.FeedAll(find, n, pending, chunks).1);
    RunKeeps(s, ps);
  }

  function Codes(q: seq<Err>): (cs: seq<Code>)
    ensures |cs| == |q| && forall i | 0 <= i < |q| :: cs[i] == q[i].code
  {
    seq(|q|, i requires 0 <= i < |q| => q[i].code)
  }

  function PushedCodes(ps: seq<Step>): (cs: seq<Code>)
    requires Pushes(ps)
    ensures |cs| == |ps| && forall i | 0 <= i < |ps| :: cs[i] == ps[i].code
  {
    seq(|ps|, i requires 0 <= i < |ps| => ps[i].code)
  }

  /** A list of codes in a queue of `size` places: what no longer fits gives way to one overflow at its end. */
  function Capped(size: nat, cs: seq<Code>): seq<Code>
    requires size > 0
  {
    if |cs| <= size then cs else cs[..size - 1] + [QUEUE_OVERFLOW]
  }

  lemma CappedAgain(size: nat, a: seq<Code>, b: seq<Code>)
    requires size > 0
    ensures Capped(size, Capped(size, a) + b) == Capped(size, a + b)
  {
    if |a| > size && b != [] {
      assert (a[..size - 1] + [QUEUE_OVERFLOW] + b)[..size - 1] == a[..size - 1] == (a + b)[..size - 1];
    } else if b == [] {
      assert Capped(size, a) + b == Capped(size, a) && a + b == a;
    }
  }

  lemma PushCapped(s: State, code: Code, text: Option<string>)
    requires s.size > 0 && |s.queue| <= s.size
    ensures var r := Apply(s, Push(code, text));
      r.size == s.size && |r.queue| <= s.size && Codes(r.queue) == Capped(s.size, Codes(s.queue) + [code])
  {
    var r := Apply(s, Push(code, text));
    if |s.queue| == s.size {
      assert (Codes(s.queue) + [code])[..s.size - 1] == Codes(s.queue)[..s.size - 1];
    }
  }

  /** After any number of pushes the queue holds the first errors in order, and one overflow when they were too many. */
  lemma {:induction false} RunCapped(s: State, ps: seq<Step>)
    requires s.size > 0 && |s.queue| <= s.size && Pushes(ps)
    ensures Codes(Run(s, ps).queue) == Capped(s.size, Codes(s.queue) + PushedCodes(ps))
    decreases ps
  {
    if ps == [] {
      assert Codes(s.queue) + PushedCodes(ps) == Codes(s.queue);
    } else {
      var r := Apply(s, ps[0]);
      var c, cs := Codes(s.queue), PushedCodes(ps[1..]);
      PushCapped(s, ps[0].code, ps[0].text);
      RunCapped(r, ps[1..]);
      CappedAgain(s.size, c + [ps[0].code], cs);
      assert c + [ps[0].code] + cs == c + PushedCodes(ps);
    }
  }

  /** The errors as they are pushed, each with its text. */
  function Pushed(ps: seq<Step>): seq<Err>
    requires Pushes(ps)
  {
    if ps == [] then [] else [Err(ps[0].code, ps[0].text)] + Pushed(ps[1..])
  }

  /** While queue and heap have room, every error is kept with its text. */
  lemma {:induction false} RunKeepsAll(s: State, ps: seq<Step>)
    requires Pushes(ps) && |s.queue| + |ps| <= s.size && Cost(s.queue + Pushed(ps)) <= s.room
    requires forall i | 0 <= i < |ps| :: ps[i].text != Some("")
    ensures Run(s, ps).queue == s.queue + Pushed(ps)
    decreases ps
  {
    if ps == [] {
      assert s.queue + Pushed(ps) == s.queue;
    } else {
      var e, more := Err(ps[0].code, ps[0].text), Pushed(ps[1..]);
      assert s.queue + Pushed(ps) == s.queue + [e] + more;
      CostOfFirst(s.queue, e, more);
      assert ps[0].text != Some("");
      assert Apply(s, ps[0]).queue == s.queue + [e];
      RunKeepsAll(Apply(s, ps[0]), ps[1..]);
    }
  }

  lemma CostOfFirst(q: seq<Err>, e: Err, more: seq<Err>)
    ensures Cost(q) + (if e.text.Some? then |e.text.value| + 1 else 0) <= Cost(q + [e] + more)
  {
    TextsAppend(q + [e], more);
    TextsAppend(q, [e]);
    InfoHeap.PackedAppend(Texts(q + [e]), Texts(more));
    InfoHeap.PackedAppend(Texts(q), Texts([e]));
    assert [e][1..] == [] && Texts([e]) == if e.text.Some? then [e.text.value] else [];
  }

  /** From initialisation: the errors of any input in order, the last replaced by the overflow if they are too many. */
  lemma InputQueue(find: Lookup, n: nat, pending: string, chunks: seq<string>, size: nat, room: nat)
    requires size > 0
    ensures var ps := ReportsOf(Chunks.FeedAll(find, n, pending, chunks).1);
      Pushes(ps) && Codes(Run(Init(size, room), ps).queue) == Capped(size, PushedCodes(ps))
  {
    var ps := ReportsOf(Chunks.FeedAll(find, n, pending, chunks).1);
    ReportsArePushes(Chunks.FeedAll(find, n, pending, chunks).1);
    RunCapped(Init(size, room), ps);
    assert Codes([]) + PushedCodes(ps) == PushedCodes(ps);
  }

  /** The text reported for an undefined header is not empty: it holds the first character of the header. */
  lemma {:induction false} ReportsHaveText(find: Lookup, c: Cursor, s: string)
    requires c.Inside()
    ensures forall e | e in ParseFrom(find, c, s) :: e.UndefinedHeader? ==> e.text != ""
    decreases |s|
  {
    var u := Scanner.ScanUnit(s);
    LineEndings.ParseIs(find, c, s, u);
    HandledText(find, c, s, s[..u.consumed], u);
    if 0 < u.consumed < |s| {
      ReportsHaveText(find, Handle(find, c, s[..u.consumed], u).0, s[u.consumed..]);
    }
  }

  lemma HandledText(find: Lookup, c: Cursor, s: string, t: string, u: Scanner.Unit)
    requires c.Inside() && u == Scanner.ScanUnit(s) && t == s[..u.consumed] && Spanned(u, t)
    ensures forall e | e in Handle(find, c, t, u).1 :: e.UndefinedHeader? ==> e.text != ""
  {
    if Headed(u) {
      var n := u.header.ptr;
      HeaderPaths.HeaderStart(s);
      HeaderPaths.ReportedText(c, t, u.header, Inherited(c.Prev(), Text(t, u.header)));
      var r := Compose(c, t, u.header).done[|c.done|..];
      assert r[n] == t[n] == s[n];
      HeaderPaths.TrimKeeps(r, n);
    }
  }

  /** The error calls of `SCPI_Parse` and `SCPI_Input`; behind the reported text the buffer goes on with `behind`. */
  method Report(context: ErrorContext, e: Event, behind: string)
    requires context.Valid() && behind != "" && (e.UndefinedHeader? ==> e.text != "")
    modifies context, context.fifo, context.fifo.data, context.heap, context.heap.data, context.regs
    ensures context.Valid()
    ensures context.Abs() ==
      if ReportOf(e).Some? then Apply(old(context.Abs()), ReportOf(e).value) else old(context.Abs())
    ensures e.InvalidCharacter? ==> context.Abs() == Apply(old(context.Abs()), Push(-101, None))
    ensures e.InputBufferOverrun? ==> context.Abs() == Apply(old(context.Abs()), Push(-363, None))
    ensures e.UndefinedHeader? && NUL !in e.text ==>
      context.Abs() == Apply(old(context.Abs()), Push(-113, Some(e.text)))
  {
    if e.UndefinedHeader? && NUL !in e.text {
      WholeText(e.text);
    }
    match e {
      case Execute(_, _, _) =>
      case InvalidCharacter => context.ErrorPush(INVALID_CHARACTER);
      case UndefinedHeader(text) =>
        SameCut(text, behind);
        context.ErrorPushEx(UNDEFINED_HEADER, Some(text + behind), |text|);
      case InputBufferOverrun => context.ErrorPush(INPUT_BUFFER_OVERRUN);
    }
  }

  lemma WholeText(text: string)
    requires NUL !in text
    ensures UpToNul(text) == text
  {
    assert text[..|text|] == text;
  }

  lemma {:induction false} SameCut(text: string, behind: string)
    ensures StrNLen(text + behind, |text|) == StrNLen(text, |text|)
    ensures (text + behind)[..StrNLen(text, |text|)] == text[..StrNLen(text, |text|)]
  {
    if text != "" && text[0] != NUL {
      assert (text + behind)[1..] == text[1..] + behind;
      SameCut(text[1..], behind);
    }
  }
}
