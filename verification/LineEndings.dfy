/** A line that ends with a carriage return is parsed like the same line with a line feed behind it. */
module LineEndings {
  import opened Base
  import opened Lexer
  import opened Scanner
  import opened Extension
  import opened Messages
  import opened LineParser

  const LF := "\n"

  lemma TrimLonger(s: string)
    ensures TrimNewlines(s + LF) == TrimNewlines(s)
  {
    assert (s + LF)[..|s|] == s;
  }

  lemma ComposeLonger(c: Cursor, t: string, k: Token)
    requires c.Inside() && k.len > 0 && k.ptr + k.len <= |t|
    ensures var d, e := Compose(c, t, k), Compose(c, t + LF, k); e.done == d.done + LF && e.Prev() == d.Prev()
  {
    ComposeResolves(c, t, k);
    ComposeResolves(c, t + LF, k);
    assert Text(t + LF, k) == Text(t, k);
    assert c.done + (t + LF) == (c.done + t) + LF;
  }

  /** The last unit of a line causes the same event with a line feed behind it. */
  lemma HandleLonger(find: Lookup, c: Cursor, t: string, u: Unit, v: Unit)
    requires c.Inside() && Spanned(u, t) && v.header == u.header && v.data == u.data
    ensures Spanned(v, t + LF) && Handle(find, c, t + LF, v).1 == Handle(find, c, t, u).1
  {
    if Headed(u) {
      ComposeLonger(c, t, u.header);
      var d := Compose(c, t, u.header);
      assert (d.done + LF)[|c.done|..] == d.done[|c.done|..] + LF;
      TrimLonger(d.done[|c.done|..]);
      assert Text(t + LF, u.data) == Text(t, u.data);
    }
  }

  lemma LineFeedUnit()
    ensures ScanUnit(LF) == Unit(Token(UNKNOWN, 0, 0), Token(UNKNOWN, 0, 0), 0, NEWLINE, 1)
  {
    ScanUnitIs(LF);
    assert Run(LF, 0, Blank) == 0 && Mnemonic(LF, 0) == 0 && SkipChr(LF, 0, ':') == 0;
    assert LexNewLine(LF, 0).pos == 1;
  }

  /** A lone line feed is an empty message. */
  lemma EmptyMessage(find: Lookup, c: Cursor)
    requires c.Inside()
    ensures ParseFrom(find, c, LF) == []
  {
    LineFeedUnit();
    ParseIs(find, c, LF, ScanUnit(LF));
  }

  lemma ParseIs(find: Lookup, c: Cursor, s: string, u: Unit)
    requires c.Inside() && u == ScanUnit(s)
    ensures var t := s[..u.consumed]; Spanned(u, t) && var (d, es) := Handle(find, c, t, u);
      ParseFrom(find, c, s) == if 0 < u.consumed < |s| then es + ParseFrom(find, d, s[u.consumed..]) else es
  {
    FirstSpanned(s);
  }

  /** In a message the line feed can only join the last unit. */
  lemma UnitLonger(s: string)
    requires MessageEnd(s).Some?
    ensures var u, v := ScanUnit(s), ScanUnit(s + LF);
      v == u || (u.termination == NEWLINE && u.consumed == |s| && v == u.(consumed := |s| + 1))
  {
    UnitExt(s, LF);
    if Incomplete(s, ScanUnit(s), ScanUnit(s + LF)) {
      IncompleteEnds(s, LF);
    } else if DoublesQuote(s, LF, ScanUnit(s)) {
      NextUnit(s);
    }
  }

  /** The line feed that a chunk boundary cut off a carriage return changes nothing in what is executed. */
  lemma {:induction false} ParseLonger(find: Lookup, c: Cursor, s: string)
    requires c.Inside() && MessageEnd(s) == Some(|s|)
    ensures ParseFrom(find, c, s + LF) == ParseFrom(find, c, s)
    decreases |s|, 1
  {
    if ScanUnit(s).termination != NEWLINE {
      RestEnds(s);
      NotLastLonger(find, c, s);
    } else {
      UnitLonger(s);
      LastEnds(s);
      LastLonger(find, c, s);
    }
  }

  lemma NotLastLonger(find: Lookup, c: Cursor, s: string)
    requires c.Inside() && MessageEnd(s).Some? && ScanUnit(s).termination != NEWLINE
    requires var n := ScanUnit(s).consumed; 0 < n < |s| && MessageEnd(s[n..]) == Some(|s| - n)
    ensures ParseFrom(find, c, s + LF) == ParseFrom(find, c, s)
    decreases |s|, 0
  {
    var u := ScanUnit(s);
    UnitLonger(s);
    ParseIs(find, c, s, u);
    ParseLonger(find, Handle(find, c, s[..u.consumed], u).0, s[u.consumed..]);
    SameFirst(find, c, s, u);
  }

  lemma LastEnds(s: string)
    requires MessageEnd(s) == Some(|s|) && ScanUnit(s).termination == NEWLINE
    ensures ScanUnit(s).consumed == |s| > 0
  {
    NextUnit(s);
  }

  lemma RestEnds(s: string)
    requires MessageEnd(s) == Some(|s|) && ScanUnit(s).termination != NEWLINE
    ensures var n := ScanUnit(s).consumed; 0 < n < |s| && MessageEnd(s[n..]) == Some(|s| - n)
  {
    NextUnit(s);
  }

  lemma SameFirst(find: Lookup, c: Cursor, s: string, u: Unit)
    requires c.Inside() && u == ScanUnit(s) == ScanUnit(s + LF) && 0 < u.consumed < |s| && Spanned(u, s[..u.consumed])
    requires var d := Handle(find, c, s[..u.consumed], u).0;
      ParseFrom(find, d, s[u.consumed..] + LF) == ParseFrom(find, d, s[u.consumed..])
    ensures ParseFrom(find, c, s + LF) == ParseFrom(find, c, s)
  {
    AppendSlices(s, LF, u.consumed);
    ParseIs(find, c, s, u);
    ParseIs(find, c, s + LF, u);
  }

  lemma LastLonger(find: Lookup, c: Cursor, s: string)
    requires c.Inside() && ScanUnit(s).consumed == |s| > 0
    requires var u, v := ScanUnit(s), ScanUnit(s + LF); v == u || v == u.(consumed := |s| + 1)
    ensures ParseFrom(find, c, s + LF) == ParseFrom(find, c, s)
  {
    FirstSpanned(s);
    FirstSpanned(s + LF);
    var u, v := ScanUnit(s), ScanUnit(s + LF);
    assert s[..|s|] == s && (s + LF)[..|s|] == s && (s + LF)[|s|..] == LF && (s + LF)[..|s| + 1] == s + LF;
    if v == u {
      EmptyMessage(find, Handle(find, c, s, u).0);
    } else {
      HandleLonger(find, c, s, u, v);
    }
  }
}
