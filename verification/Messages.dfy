/** The program message units of a buffer, and where its first program message ends. */
module Messages {
  import opened Base
  import opened Lexer
  import opened Scanner
  import opened Extension

  /** Every unit takes at least one byte of a buffer that is not empty. */
  lemma Progress(s: string)
    ensures s != "" ==> ScanUnit(s).consumed > 0
    ensures ScanUnit(s).termination == NEWLINE ==>
        ScanUnit(s).consumed > 0 && IsNL(s[ScanUnit(s).consumed - 1])
  {
    ScanUnitIs(s);
  }

  /** The units `SCPI_Parse` finds in a line. */
  ghost function Units(s: string): (us: seq<Unit>)
    decreases |s|
  {
    var u := ScanUnit(s);
    if u.consumed < |s| then
      Progress(s);
      [u] + Units(s[u.consumed..])
    else [u]
  }

  function Total(us: seq<Unit>): nat {
    if us == [] then 0 else us[0].consumed + Total(us[1..])
  }

  /** The units of a line partition it, and only an empty line has an empty unit. */
  lemma {:induction false} UnitsTile(s: string)
    ensures Total(Units(s)) == |s|
    ensures s != "" ==> forall u | u in Units(s) :: u.consumed > 0
    decreases |s|
  {
    var u := ScanUnit(s);
    Progress(s);
    if u.consumed < |s| {
      UnitsTile(s[u.consumed..]);
      TotalCons(u, Units(s[u.consumed..]));
    } else {
      TotalCons(u, []);
      assert [u] + [] == [u];
    }
  }

  lemma TotalCons(u: Unit, us: seq<Unit>)
    ensures Total([u] + us) == u.consumed + Total(us)
  {
    assert ([u] + us)[1..] == us;
  }

  /** The loop of `SCPI_Input`: the bytes up to the first unit that a newline ends. */
  ghost function MessageEnd(s: string): (e: Option<nat>)
    ensures e.Some? ==> 0 < e.value <= |s|
    decreases |s|
  {
    Progress(s);
    var u := ScanUnit(s);
    if u.termination == NEWLINE then Some(u.consumed)
    else if u.consumed >= |s| then None
    else
      Later(u.consumed, MessageEnd(s[u.consumed..]))
  }

  function Later(n: nat, e: Option<nat>): Option<nat> {
    if e.Some? then Some(n + e.value) else None
  }

  /** A message ends with a newline character. */
  lemma {:induction false} EndsWithNewline(s: string)
    ensures var e := MessageEnd(s); e.Some? ==> IsNL(s[e.value - 1])
    decreases |s|
  {
    var u := ScanUnit(s);
    Progress(s);
    if u.termination != NEWLINE && u.consumed < |s| {
      EndsWithNewline(s[u.consumed..]);
    }
  }

  /**
   Behind an incomplete unit the shorter buffer has no message end, and the longer one has none before its extra
   bytes.
   */
  lemma IncompleteEnds(s: string, x: string)
    requires Incomplete(s, ScanUnit(s), ScanUnit(s + x))
    ensures MessageEnd(s) == None
    ensures MessageEnd(s + x).Some? ==> MessageEnd(s + x).value > |s|
  {
    var t, u, v := s + x, ScanUnit(s), ScanUnit(s + x);
    var q: nat :| q <= u.consumed && q <= v.consumed && q <= |s| && NoNL(s, q);
    if u.consumed < |s| {
      EndsWithNewline(s[u.consumed..]);
    }
    if v.consumed < |t| && v.termination != NEWLINE {
      EndsWithNewline(t[v.consumed..]);
    }
  }

  lemma NextUnit(s: string)
    ensures var u := ScanUnit(s);
      u.termination != NEWLINE && u.consumed < |s| ==>
        u.consumed > 0 && MessageEnd(s) == Later(u.consumed, MessageEnd(s[u.consumed..]))
    ensures var u := ScanUnit(s); u.termination != NEWLINE && u.consumed >= |s| ==> MessageEnd(s) == None
    ensures var u := ScanUnit(s); u.termination == NEWLINE ==> MessageEnd(s) == Some(u.consumed)
  {
    Progress(s);
  }

  /** How the first message end of a buffer relates to that of the buffer with `x` behind it. */
  predicate SameEnd(s: string, x: string, e: Option<nat>, f: Option<nat>) {
    || (e.Some? && f == e)
    || (e == Some(|s|) && f == Some(|s| + 1) && s != "" && s[|s| - 1] == '\r' && Sees(x, 0, '\n'))
    || (e.None? && (f.Some? ==> f.value > |s|))
  }

  lemma NextKeeps(s: string, x: string, n: nat, e: Option<nat>, f: Option<nat>)
    requires 0 < n < |s| && SameEnd(s[n..], x, e, f)
    ensures SameEnd(s, x, Later(n, e), Later(n, f))
  {
  }

  lemma LastKeeps(s: string, x: string)
    requires ScanUnit(s) == ScanUnit(s + x) || CutNewline(s, x)
    requires ScanUnit(s) == ScanUnit(s + x) || ScanUnit(s + x) == ScanUnit(s).(consumed := |s| + 1)
    requires ScanUnit(s).termination == NEWLINE || ScanUnit(s).consumed == |s|
    ensures SameEnd(s, x, MessageEnd(s), MessageEnd(s + x))
  {
    NextUnit(s);
    NextUnit(s + x);
  }

  /** No string in the data of any unit of the buffer holds a newline. */
  ghost predicate PlainUnits(s: string)
    decreases |s|
  {
    Progress(s);
    PlainUnit(s) && (ScanUnit(s).consumed < |s| ==> PlainUnits(s[ScanUnit(s).consumed..]))
  }

  /**
   More bytes behind a buffer leave its first message alone, except that a line feed joins a carriage return. Without a
   message in the buffer the first message end lies behind it, unless the bytes reopen a string that ended the buffer.
   */
  lemma {:induction false} MessageEndExt(s: string, x: string)
    requires PlainUnits(s + x)
    ensures SameEnd(s, x, MessageEnd(s), MessageEnd(s + x)) || (MessageEnd(s) == None && Doubled(s, x))
    decreases |s|
  {
    var t, u, v := s + x, ScanUnit(s), ScanUnit(s + x);
    UnitExt(s, x);
    if Incomplete(s, u, v) {
      IncompleteEnds(s, x);
    } else if DoublesQuote(s, x, u) {
      NextUnit(s);
    } else if u.termination == NEWLINE || u.consumed == |s| {
      LastKeeps(s, x);
    } else {
      RestOfBoth(s, x, u);
      MessageEndExt(s[u.consumed..], x);
      if MessageEnd(s[u.consumed..]).Some? || !Doubled(s[u.consumed..], x) {
        NextKeeps(s, x, u.consumed, MessageEnd(s[u.consumed..]), MessageEnd(s[u.consumed..] + x));
      }
    }
  }

  /** A unit that is the same with more bytes behind it, and the rests of both buffers. */
  lemma RestOfBoth(s: string, x: string, u: Unit)
    requires u == ScanUnit(s) == ScanUnit(s + x) && u.termination != NEWLINE && u.consumed < |s|
    ensures u.consumed > 0 && (s + x)[u.consumed..] == s[u.consumed..] + x
    ensures MessageEnd(s) == Later(u.consumed, MessageEnd(s[u.consumed..]))
    ensures MessageEnd(s + x) == Later(u.consumed, MessageEnd(s[u.consumed..] + x))
    ensures PlainUnits(s + x) ==> PlainUnits(s[u.consumed..] + x)
  {
    NextUnit(s);
    NextUnit(s + x);
    AppendSlices(s, x, u.consumed);
  }

  /** A message is executed as one that stands for itself: its first unit is the same without the bytes behind it. */
  lemma UnitAlone(t: string, e: nat)
    requires MessageEnd(t) == Some(e)
    ensures ScanUnit(t[..e]) == ScanUnit(t)
  {
    var s, x := t[..e], t[e..];
    assert t == s + x;
    UnitExt(s, x);
    NextUnit(t);
    EndsWithNewline(t);
    assert IsNL(s[e - 1]);
  }

  /** A message is one for itself. */
  lemma {:induction false} MessageAlone(t: string, e: nat)
    requires MessageEnd(t) == Some(e)
    ensures MessageEnd(t[..e]) == Some(e)
    decreases |t|
  {
    UnitAlone(t, e);
    NextUnit(t);
    NextUnit(t[..e]);
    var n := ScanUnit(t).consumed;
    if ScanUnit(t).termination != NEWLINE {
      MessageAlone(t[n..], e - n);
      assert t[n..][..e - n] == t[..e][n..];
    }
  }

  /**
   The first message of the buffer, if there is one, stays the first message when `x` follows, but for a line feed.
   */
  ghost predicate Kept(s: string, x: string) {
    MessageEnd(s).Some? ==> SameEnd(s, x, MessageEnd(s), MessageEnd(s + x))
  }

  /** No message of the stream has a beginning that ends a message too early. */
  ghost predicate Steady(t: string)
    decreases |t|
  {
    (forall n | 0 <= n <= |t| :: Kept(t[..n], t[n..])) && (MessageEnd(t).Some? ==> Steady(t[MessageEnd(t).value..]))
  }

  /** A message that ends too early and has no broken string in its first unit has it in a later one. */
  lemma PartsLater(s: string, x: string)
    requires !Kept(s, x) && !BreaksString(s, x, ScanUnit(s), ScanUnit(s + x))
    ensures var u := ScanUnit(s);
      u == ScanUnit(s + x) && u.termination != NEWLINE && u.consumed < |s| && !Kept(s[u.consumed..], x)
  {
    var u, v := ScanUnit(s), ScanUnit(s + x);
    UnitExt(s, x);
    NextUnit(s);
    NextUnit(s + x);
    if Incomplete(s, u, v) {
      IncompleteEnds(s, x);
      assert false;
    } else if u.termination == NEWLINE || u.consumed == |s| {
      if !DoublesQuote(s, x, u) {
        LastKeeps(s, x);
      }
      assert false;
    } else if Kept(s[u.consumed..], x) {
      RestOfBoth(s, x, u);
      NextKeeps(s, x, u.consumed, MessageEnd(s[u.consumed..]), MessageEnd(s[u.consumed..] + x));
      assert false;
    }
  }

  /**
   The cut breaks a string of the first message, and what has arrived of its inside, read as units, ends a message
   already.
   */
  ghost predicate Breaks(s: string, x: string)
    decreases |s|
  {
    var u, v := ScanUnit(s), ScanUnit(s + x);
    if BreaksString(s, x, u, v) then MessageEnd(s[u.consumed..]).Some?
    else u == v && u.termination != NEWLINE && 0 < u.consumed < |s| && Breaks(s[u.consumed..], x)
  }

  /** A broken string that ends a message: the message would have gone on behind its closing quote. */
  lemma BrokenEnds(s: string, x: string)
    requires BreaksString(s, x, ScanUnit(s), ScanUnit(s + x))
    ensures !Kept(s, x) <==> MessageEnd(s[ScanUnit(s).consumed..]).Some?
  {
    var u, v := ScanUnit(s), ScanUnit(s + x);
    NextUnit(s);
    NextUnit(s + x);
    if MessageEnd(s[u.consumed..]).Some? && Sees(x, 0, '\n') {
      assert (s + x)[|s|] == x[0];
    }
  }

  lemma KeptBehind(s: string, x: string, u: Unit)
    requires u == ScanUnit(s) == ScanUnit(s + x) && u.termination != NEWLINE && u.consumed < |s|
    ensures Kept(s, x) <==> Kept(s[u.consumed..], x)
  {
    RestOfBoth(s, x, u);
    var r := s[u.consumed..];
    if MessageEnd(r).Some? {
      EndBehind(s, x, u.consumed, MessageEnd(r).value, MessageEnd(r + x));
    }
  }

  lemma EndBehind(s: string, x: string, n: nat, e: nat, f: Option<nat>)
    requires 0 < n < |s|
    ensures SameEnd(s, x, Some(n + e), Later(n, f)) <==> SameEnd(s[n..], x, Some(e), f)
  {
  }

  /** A message ends too early exactly when the cut breaks one of its strings behind a newline that ends a message. */
  lemma {:induction false} BreaksExact(s: string, x: string)
    ensures !Kept(s, x) <==> Breaks(s, x)
    decreases |s|
  {
    var u := ScanUnit(s);
    Progress(s);
    if BreaksString(s, x, u, ScanUnit(s + x)) {
      BrokenEnds(s, x);
    } else {
      if !Kept(s, x) {
        PartsLater(s, x);
      }
      if u == ScanUnit(s + x) && u.termination != NEWLINE && 0 < u.consumed < |s| {
        KeptBehind(s, x, u);
        BreaksExact(s[u.consumed..], x);
      }
    }
  }

  /** No cut of the stream breaks a string so that a message ends in it. */
  ghost predicate Unbroken(t: string)
    decreases |t|
  {
    (forall n | 0 <= n <= |t| :: !Breaks(t[..n], t[n..])) && (MessageEnd(t).Some? ==>
      Unbroken(t[MessageEnd(t).value..]))
  }

  /** A stream is steady exactly when no cut breaks a string so that a message ends in it. */
  lemma {:induction false} SteadyExact(t: string)
    ensures Steady(t) <==> Unbroken(t)
    decreases |t|
  {
    forall n | 0 <= n <= |t| ensures Kept(t[..n], t[n..]) <==> !Breaks(t[..n], t[n..]) {
      BreaksExact(t[..n], t[n..]);
    }
    if MessageEnd(t).Some? {
      SteadyExact(t[MessageEnd(t).value..]);
    }
  }

  lemma {:induction false} PlainRest(t: string)
    requires PlainUnits(t) && MessageEnd(t).Some?
    ensures PlainUnits(t[MessageEnd(t).value..])
    decreases |t|
  {
    var n := ScanUnit(t).consumed;
    NextUnit(t);
    if ScanUnit(t).termination == NEWLINE {
      if n == |t| {
        PlainNothing();
      }
    } else {
      PlainRest(t[n..]);
      assert t[n..][MessageEnd(t[n..]).value..] == t[MessageEnd(t).value..];
    }
  }

  lemma PlainNothing()
    ensures PlainUnits("")
  {
    assert Run("", 0, Blank) == 0 && Mnemonic("", 0) == 0;
  }

  /** A stream in which no string token holds a newline is steady. */
  lemma {:induction false} PlainSteady(t: string)
    requires PlainUnits(t)
    ensures Steady(t)
    decreases |t|
  {
    forall n | 0 <= n <= |t| ensures Kept(t[..n], t[n..]) {
      assert t == t[..n] + t[n..];
      MessageEndExt(t[..n], t[n..]);
    }
    if MessageEnd(t).Some? {
      PlainRest(t);
      PlainSteady(t[MessageEnd(t).value..]);
    }
  }

  /** Behind a steady beginning of one unit the stream stays steady. */
  lemma SteadyAt(t: string, s: string, x: string)
    requires Steady(t) && t == s + x
    ensures Kept(s, x)
  {
    assert t[..|s|] == s && t[|s|..] == x;
    assert Kept(t[..|s|], t[|s|..]);
  }

  lemma {:induction false} NoQuotesPlain(t: string)
    requires NoQuotes(t)
    ensures PlainUnits(t)
    decreases |t|
  {
    NoQuotesUnit(t);
    Progress(t);
    if ScanUnit(t).consumed < |t| {
      NoQuotesPlain(t[ScanUnit(t).consumed..]);
    }
  }
}
