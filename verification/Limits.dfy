/** Inputs on which the parser does not do what one would expect of it. */
module Limits {
  import opened Base
  import opened Lexer
  import opened Scanner
  import opened Messages
  import opened LineParser
  import opened Chunks
  import opened Joining
  import opened LineEndings
  import opened Texts
  import opened Reader
  import opened Parameters

  const WHOLE := "A \"\n\"\n"
  const CUT := "A \"\n"

  /** The header `A` with the blank behind it. */
  lemma HeaderA(s: string)
    requires |s| >= 3 && s[0] == 'A' && s[1] == ' ' && s[2] == '"'
    ensures UnitBody(s) == (var d := AllData(s, 2);
      (Token(COMPOUND_HEADER, 0, 1), Token(if d.ok then ALL_PROGRAM_DATA else UNKNOWN, 2, d.len), d.count, d.pos))
  {
    assert Run(s, 1, WordChar) == 1 && Mnemonic(s, 0) == 1 && CompoundTail(s, 1) == (1, true);
    assert Run(s, 2, Blank) == 2 && Run(s, 1, Blank) == 2 && Run(s, 0, Blank) == 0;
  }

  /** Data that are one string from `p` to `q`, with blanks up to `e` behind it. */
  lemma OneString(s: string, p: nat, q: nat, e: nat)
    requires p < q < |s| && s[p] == '"' && QuoteEnd(s, p + 1, '"') == q && s[q] == '"'
    requires Run(s, q + 1, Blank) == e && !Sees(s, e, ',')
    ensures AllData(s, p) == Scanned(e, true, e - p, 1)
  {
    AtQuote(s, p);
    assert Run(s, p, Blank) == p;
    ParseDataBy(s, p, p, Parsed(q + 1, Token(DOUBLE_QUOTE, p, q + 1 - p), q + 1 - p), e);
  }

  lemma WholeQuote()
    ensures QuoteEnd(WHOLE, 3, '"') == 4 && Run(WHOLE, 5, Blank) == 5
  {
    assert QuoteEnd(WHOLE, 4, '"') == 4;
  }

  lemma WholeData()
    ensures AllData(WHOLE, 2) == Scanned(5, true, 3, 1)
  {
    WholeQuote();
    OneString(WHOLE, 2, 4, 5);
  }

  lemma WholeUnit()
    ensures ScanUnit(WHOLE) == Unit(Token(COMPOUND_HEADER, 0, 1), Token(ALL_PROGRAM_DATA, 2, 3), 1, NEWLINE, 6)
  {
    ScanUnitIs(WHOLE);
    HeaderA(WHOLE);
    WholeData();
    assert LexNewLine(WHOLE, 5).pos == 6;
  }

  lemma CutData()
    ensures AllData(CUT, 2) == Scanned(2, false, 0, -1)
  {
    AtQuote(CUT, 2);
    assert QuoteEnd(CUT, 4, '"') == 4;
    assert QuoteEnd(CUT, 3, '"') == 4;
    assert Run(CUT, 2, Blank) == 2;
    ParseDataBy(CUT, 2, 2, Parsed(2, Token(UNKNOWN, 2, 0), 0), 2);
  }

  lemma CutScan()
    ensures ScanUnit(CUT) == Unit(Token(INVALID, 0, 1), Token(UNKNOWN, 0, 0), -1, NONE, 3)
  {
    ScanUnitIs(CUT);
    HeaderA(CUT);
    CutData();
    assert LexNewLine(CUT, 2).pos == 2;
  }

  lemma CutUnit()
    ensures ScanUnit(CUT) == Unit(Token(INVALID, 0, 1), Token(UNKNOWN, 0, 0), -1, NONE, 3)
    ensures MessageEnd(CUT) == Some(4)
  {
    CutScan();
    assert CUT[3..] == LF;
    LineFeedUnit();
    NextUnit(CUT);
    NextUnit(LF);
  }

  lemma ComposedA(c: Cursor)
    requires c == START
    ensures Compose(c, WHOLE, Token(COMPOUND_HEADER, 0, 1)).Prev() == "A"
  {
    var k := Token(COMPOUND_HEADER, 0, 1);
    ComposeResolves(c, WHOLE, k);
    assert Text(WHOLE, k) == "A";
    assert c.Prev() == "";
  }

  lemma WholeLine(find: Lookup)
    requires find("A") == Some(0)
    ensures ParseLine(find, WHOLE) == [Execute(0, "A", "\"\n\"")]
  {
    WholeUnit();
    var u := ScanUnit(WHOLE);
    ParseIs(find, START, WHOLE, u);
    SliceAll(WHOLE);
    ComposedA(START);
    WholeHandled(find, START, u);
  }

  lemma WholeHandled(find: Lookup, c: Cursor, u: Unit)
    requires u == Unit(Token(COMPOUND_HEADER, 0, 1), Token(ALL_PROGRAM_DATA, 2, 3), 1, NEWLINE, 6)
    requires c.Inside() && Compose(c, WHOLE, u.header).Prev() == "A" && find("A") == Some(0)
    ensures Handle(find, c, WHOLE, u).1 == [Execute(0, "A", "\"\n\"")]
  {
    assert Text(WHOLE, u.data) == "\"\n\"";
  }

  lemma CutLine(find: Lookup)
    ensures ParseLine(find, CUT) != [] && ParseLine(find, CUT)[0] == InvalidCharacter
  {
    CutUnit();
    ParseIs(find, START, CUT, ScanUnit(CUT));
  }

  lemma FirstChunk(find: Lookup, s: string, chunks: seq<string>)
    requires MessageEnd(s) == Some(|s|) && chunks != [] && chunks[0] == s && NoOverrun(16, "", chunks)
    requires ParseLine(find, s) != []
    ensures FeedAll(find, 16, "", chunks).1 != [] && FeedAll(find, 16, "", chunks).1[0] == ParseLine(find, s)[0]
  {
    SliceAll(s);
    WholeMessage(find, s);
    FeedFirst(find, 16, "", chunks);
  }

  lemma FitsOne(a: string)
    requires 0 < |a| <= 15
    ensures NoOverrun(16, "", [a])
  {
    assert [a][1..] == [];
  }

  lemma FitsTwo(a: string, b: string)
    requires MessageEnd(a) == Some(|a|) && 0 < |a| <= 15 && 0 < |b| <= 15
    ensures NoOverrun(16, "", [a, b])
  {
    SliceAll(a);
    EmptyHasNone();
    assert a[|a|..] == "" && Pending(a) == Pending("");
    FitsOne(b);
    assert [a, b][1..] == [b];
  }

  lemma TheStreams()
    ensures Flat([WHOLE]) == Flat([CUT, "\"\n"]) == WHOLE
  {
    assert [WHOLE][1..] == [] && [CUT, "\"\n"][1..] == ["\"\n"] && ["\"\n"][1..] == [];
  }

  /** A chunk boundary inside a string that holds a newline changes what is executed. */
  lemma QuotedNewline(find: Lookup)
    requires find("A") == Some(0)
    ensures Flat([WHOLE]) == Flat([CUT, "\"\n"]) && NoOverrun(16, "", [WHOLE]) && NoOverrun(16, "", [CUT, "\"\n"])
    ensures FeedAll(find, 16, "", [WHOLE]).1 != FeedAll(find, 16, "", [CUT, "\"\n"]).1
  {
    TheStreams();
    WholeEnd();
    CutUnit();
    FitsOne(WHOLE);
    FitsTwo(CUT, "\"\n");
    WholeLine(find);
    CutLine(find);
    FirstChunk(find, WHOLE, [WHOLE]);
    FirstChunk(find, CUT, [CUT, "\"\n"]);
  }

  lemma WholeEnd()
    ensures MessageEnd(WHOLE) == Some(|WHOLE|)
  {
    WholeUnit();
    NextUnit(WHOLE);
  }

  const HIDING := "A \"\nA \" \"!\n"
  const REST := "A \" \"!\n"
  const MARK := "!\n"

  /** A unit that is scanned up to a character that cannot follow. */
  lemma StopsAt(s: string, p: nat)
    requires UnitBody(s).3 == p < |s| && s[p] != '\r' && s[p] != '\n' && s[p] != ';'
    ensures var u := ScanUnit(s); u.header.kind == INVALID && u.termination == NONE && u.consumed == p + 1
  {
    ScanUnitIs(s);
    assert LexNewLine(s, p).pos == p;
  }

  /** A string of the data of the header `A` with a wrong character behind it. */
  lemma StopsBehind(s: string, q: nat, e: nat)
    requires |s| >= 3 && s[0] == 'A' && s[1] == ' ' && s[2] == '"' && q + 1 <= e < |s|
    requires QuoteEnd(s, 3, '"') == q && s[q] == '"' && Run(s, q + 1, Blank) == e && (s[e] == '"' || s[e] == '!')
    ensures var u := ScanUnit(s); u.header.kind == INVALID && u.termination == NONE && u.consumed == e + 1
  {
    OneString(s, 2, q, e);
    HeaderA(s);
    StopsAt(s, e);
  }

  lemma HidingUnits()
    ensures var u := ScanUnit(HIDING); u.header.kind == INVALID && u.termination == NONE && u.consumed == 9
    ensures var u := ScanUnit(REST); u.header.kind == INVALID && u.termination == NONE && u.consumed == 6
    ensures var u := ScanUnit(MARK); u.header.kind == INVALID && u.termination == NONE && u.consumed == 1
  {
    assert QuoteEnd(HIDING, 6, '"') == 6 && QuoteEnd(HIDING, 5, '"') == 6 && QuoteEnd(HIDING, 4, '"') == 6;
    assert QuoteEnd(HIDING, 3, '"') == 6 && Run(HIDING, 8, Blank) == 8 && Run(HIDING, 7, Blank) == 8;
    StopsBehind(HIDING, 6, 8);
    assert QuoteEnd(REST, 4, '"') == 4 && QuoteEnd(REST, 3, '"') == 4 && Run(REST, 5, Blank) == 5;
    StopsBehind(REST, 4, 5);
    assert Run(MARK, 0, Blank) == 0 && Mnemonic(MARK, 0) == 0 && LexProgramHeader(MARK, 0) == Nothing(0);
    StopsAt(MARK, 0);
  }

  /** An invalid unit and the rest of its line. */
  lemma InvalidFirst(find: Lookup, c: Cursor, s: string, n: nat) returns (d: Cursor)
    requires c.Inside() && ScanUnit(s).header.kind == INVALID && ScanUnit(s).termination == NONE
    requires ScanUnit(s).consumed == n && 0 < n < |s|
    ensures d.Inside() && ParseFrom(find, c, s) == [InvalidCharacter] + ParseFrom(find, d, s[n..])
    ensures MessageEnd(s) == Later(n, MessageEnd(s[n..]))
  {
    ParseIs(find, c, s, ScanUnit(s));
    NextUnit(s);
    d := c.(done := c.done + s[..n]);
  }

  lemma LineFeedEnds()
    ensures MessageEnd(LF) == Some(1)
  {
    LineFeedUnit();
    NextUnit(LF);
  }

  lemma MarkLine(find: Lookup, c: Cursor)
    requires c.Inside()
    ensures ParseFrom(find, c, MARK) == [InvalidCharacter] && MessageEnd(MARK) == Some(2)
  {
    HidingUnits();
    var d := InvalidFirst(find, c, MARK, 1);
    assert MARK[1..] == LF;
    LineFeedEnds();
    EmptyMessage(find, d);
  }

  lemma RestLine(find: Lookup)
    ensures ParseLine(find, REST) == [InvalidCharacter] && MessageEnd(REST) == Some(7)
  {
    HidingUnits();
    var d := InvalidFirst(find, START, REST, 6);
    assert REST[6..] == LF;
    LineFeedEnds();
    EmptyMessage(find, d);
  }

  lemma HidingLine(find: Lookup)
    ensures ParseLine(find, HIDING) == [InvalidCharacter, InvalidCharacter] && MessageEnd(HIDING) == Some(11)
  {
    HidingUnits();
    var d := InvalidFirst(find, START, HIDING, 9);
    assert HIDING[9..] == MARK;
    MarkLine(find, d);
    assert [InvalidCharacter] + [InvalidCharacter] == [InvalidCharacter, InvalidCharacter];
  }

  lemma CutLineIs(find: Lookup)
    ensures ParseLine(find, CUT) == [InvalidCharacter] && MessageEnd(CUT) == Some(4)
  {
    CutUnit();
    var d := InvalidFirst(find, START, CUT, 3);
    assert CUT[3..] == LF;
    EmptyMessage(find, d);
  }

  /** Two chunks that are one message each. */
  lemma TwoMessages(find: Lookup, n: nat, a: string, b: string)
    requires MessageEnd(a) == Some(|a|) && MessageEnd(b) == Some(|b|) && |a + b| < n
    ensures NoOverrun(n, "", [a, b])
    ensures FeedAll(find, n, "", [a, b]) == ("", ParseLine(find, a) + ParseLine(find, b))
  {
    SliceAll(a);
    SliceAll(b);
    WholeMessage(find, a);
    WholeMessage(find, b);
    TwoChunks(find, n, a, b);
    assert [a, b][1..] == [b] && [b][1..] == [];
    FeedFirst(find, n, "", [a, b]);
    FeedFirst(find, n, "", [b]);
  }

  lemma HidingSplits()
    ensures CUT + REST == HIDING && |CUT + REST| < 16 && |CUT| == 4 && |REST| == 7 && |HIDING| == 11
  {
  }

  lemma HidingUnsteady(find: Lookup)
    ensures !Steady(HIDING)
  {
    CutLineIs(find);
    HidingLine(find);
    HidingSplits();
    if Steady(HIDING) {
      SteadyAt(HIDING, CUT, REST);
      assert false;
    }
  }

  lemma SameAnyway(find: Lookup, n: nat, a: string, b: string, t: string)
    requires MessageEnd(a) == Some(|a|) && MessageEnd(b) == Some(|b|) && MessageEnd(t) == Some(|t|) && |a + b| < n
    requires ParseLine(find, t) == ParseLine(find, a) + ParseLine(find, b)
    ensures NoOverrun(n, "", [a, b]) && FeedAll(find, n, "", [a, b]) == (Pending(t), Executed(find, t))
  {
    TwoMessages(find, n, a, b);
    WholeMessage(find, t);
  }

  /** A message can end too early without a change in the events, when the whole message is wrong itself. */
  lemma HiddenCut(find: Lookup, n: nat)
    requires n >= 16
    ensures !Steady(HIDING) && CUT + REST == HIDING && NoOverrun(n, "", [CUT, REST])
    ensures FeedAll(find, n, "", [CUT, REST]) == (Pending(HIDING), Executed(find, HIDING))
  {
    HidingUnsteady(find);
    HidingSplits();
    CutLineIs(find);
    RestLine(find);
    HidingLine(find);
    SameAnyway(find, n, CUT, REST, HIDING);
  }

  const THREE := "AB:C;X;C\n"
  const TWO := "X;C\n"
  const ONE := "C\n"

  /** A unit that is one header of `n` characters and its terminator. */
  lemma HeaderOnly(s: string, n: nat)
    requires 0 < n < |s| && (s[n] == ';' || s[n] == '\n') && IsAlpha(s[0])
    requires CompoundTail(s, Mnemonic(s, 0)) == (n, true)
    ensures ScanUnit(s) == Unit(Token(COMPOUND_HEADER, 0, n), Token(UNKNOWN, n, 0), 0,
      if s[n] == ';' then SEMI else NEWLINE, n + 1)
  {
    ScanUnitIs(s);
    assert Run(s, 0, Blank) == 0 && Run(s, n, Blank) == n;
    assert LexNewLine(s, n).pos == if s[n] == ';' then n else n + 1;
  }

  lemma UnitThree()
    ensures ScanUnit(THREE) == Unit(Token(COMPOUND_HEADER, 0, 4), Token(UNKNOWN, 4, 0), 0, SEMI, 5) && THREE[5..] == TWO
    ensures THREE[..5] == "AB:C;"
  {
    assert Run(THREE, 2, WordChar) == 2 && Run(THREE, 1, WordChar) == 2 && Mnemonic(THREE, 0) == 2;
    assert Run(THREE, 4, WordChar) == 4 && Mnemonic(THREE, 3) == 4 && CompoundTail(THREE, 4) == (4, true);
    HeaderOnly(THREE, 4);
  }

  lemma UnitTwo()
    ensures ScanUnit(TWO) == Unit(Token(COMPOUND_HEADER, 0, 1), Token(UNKNOWN, 1, 0), 0, SEMI, 2) && TWO[2..] == ONE
    ensures TWO[..2] == "X;"
  {
    assert Run(TWO, 1, WordChar) == 1 && Mnemonic(TWO, 0) == 1;
    HeaderOnly(TWO, 1);
  }

  lemma UnitOne()
    ensures ScanUnit(ONE) == Unit(Token(COMPOUND_HEADER, 0, 1), Token(UNKNOWN, 1, 0), 0, NEWLINE, 2) && ONE[..2] == ONE
  {
    assert Run(ONE, 1, WordChar) == 1 && Mnemonic(ONE, 0) == 1;
    HeaderOnly(ONE, 1);
  }

  const FIRST := Cursor("AB:C;", 0, 4)
  const SECOND := Cursor("ABAB:X;", 0, 4)

  /** The first header of the line is found as it stands. */
  lemma FirstFound(find: Lookup, u: Unit)
    requires u == Unit(Token(COMPOUND_HEADER, 0, 4), Token(UNKNOWN, 4, 0), 0, SEMI, 5) && find("AB:C") == Some(0)
    ensures Handle(find, START, "AB:C;", u) == (FIRST, [Execute(0, "AB:C", "")])
    ensures PureHandle(find, "", "AB:C;", u) == ("AB:C", [Execute(0, "AB:C", "")])
  {
    assert Text("AB:C;", u.header) == "AB:C" && Text("AB:C;", u.data) == "";
    assert Resolve("", "AB:C") == "AB:C";
    FirstComposed(u.header);
  }

  lemma FirstComposed(k: Token)
    requires k == Token(COMPOUND_HEADER, 0, 4)
    ensures START.Prev() == "" && Compose(START, "AB:C;", k) == FIRST && FIRST.Prev() == "AB:C"
  {
    NothingMoved("AB:C;");
    FirstInherits(k);
    ComposeFirst(k);
    assert FIRST.Prev() == "AB:C;"[..4];
  }

  lemma FirstInherits(k: Token)
    requires k == Token(COMPOUND_HEADER, 0, 4)
    ensures START.Prev() == "" && Text("AB:C;", k) == "AB:C" && Inherited(START.Prev(), Text("AB:C;", k)) == 0
  {
  }

  lemma ComposeFirst(k: Token)
    requires k == Token(COMPOUND_HEADER, 0, 4) && Inherited(START.Prev(), Text("AB:C;", k)) == 0
    requires "" + "AB:C;" == "AB:C;" && Moved("AB:C;", 0, 0, 0) == "AB:C;"
    ensures Compose(START, "AB:C;", k) == FIRST
  {
  }

  lemma NothingMoved(t: string)
    ensures "" + t == t && Moved(t, 0, 0, 0) == t
  {
  }

  /** After the undefined header `X` the bytes of `AB:C` read `ABAB`. */
  lemma SecondSpoils(find: Lookup, u: Unit)
    requires u == Unit(Token(COMPOUND_HEADER, 0, 1), Token(UNKNOWN, 1, 0), 0, SEMI, 2) && find("AB:X") == None
    ensures Handle(find, FIRST, "X;", u).0 == SECOND && |Handle(find, FIRST, "X;", u).1| == 1
    ensures PureHandle(find, "AB:C", "X;", u).0 == "AB:C" && |PureHandle(find, "AB:C", "X;", u).1| == 1
  {
    var c := FIRST;
    assert c.Prev() == "AB:C";
    assert PathLength("AB:C", 4) == PathLength("AB:C", 3) == 3;
    assert Text("X;", u.header) == "X" && Inherited("AB:C", "X") == 3;
    assert Resolve("AB:C", "X") == "AB:X";
    assert Moved("AB:C;X;", 2, 0, 3) == "ABAB:X;";
    assert c.done + "X;" == "AB:C;X;";
    assert Compose(c, "X;", u.header) == Cursor("ABAB:X;", 2, 4);
    assert Compose(c, "X;", u.header).Prev() == "AB:X";
  }

  lemma ThirdComposed(k: Token)
    requires k == Token(COMPOUND_HEADER, 0, 1)
    ensures Compose(SECOND, ONE, k) == Cursor("ABAB:X;C\n", 7, 1)
  {
    var c := SECOND;
    assert c.Prev() == "ABAB" && Text(ONE, k) == "C";
    assert PathLength("ABAB", 4) == PathLength("ABAB", 2) == 0;
    assert c.done + ONE == "ABAB:X;C\n" && Moved("ABAB:X;C\n", 7, 0, 0) == "ABAB:X;C\n";
  }

  lemma TrimmedC()
    ensures TrimNewlines(ONE) == "C"
  {
    assert ONE[..1] == "C";
    assert TrimNewlines("C") == "C";
  }

  /** The third header continues in the path of the first one only if that is still there. */
  lemma ThirdInPlace(find: Lookup, u: Unit)
    requires u == Unit(Token(COMPOUND_HEADER, 0, 1), Token(UNKNOWN, 1, 0), 0, NEWLINE, 2) && find("C") == None
    ensures Handle(find, SECOND, ONE, u).1 == [UndefinedHeader("C")]
  {
    ThirdComposed(u.header);
    var d := Cursor("ABAB:X;C\n", 7, 1);
    assert d.Prev() == "C" && d.done[7..] == ONE;
    TrimmedC();
    assert Handle(find, SECOND, ONE, u) == Conclude(find, SECOND, d, 7, Text(ONE, u.data));
  }

  lemma ThirdOnACopy(find: Lookup, u: Unit)
    requires u == Unit(Token(COMPOUND_HEADER, 0, 1), Token(UNKNOWN, 1, 0), 0, NEWLINE, 2) && find("AB:C") == Some(0)
    ensures PureHandle(find, "AB:C", ONE, u).1 == [Execute(0, "AB:C", "")]
  {
    assert Text(ONE, u.header) == "C" && Text(ONE, u.data) == "";
    assert PathLength("AB:C", 4) == PathLength("AB:C", 3) == 3 && Resolve("AB:C", "C") == "AB:C";
  }

  lemma PureIs(find: Lookup, prev: string, s: string, u: Unit)
    requires u == ScanUnit(s)
    ensures var t := s[..u.consumed]; Spanned(u, t) && var (header, es) := PureHandle(find, prev, t, u);
      PureParse(find, prev, s) == if 0 < u.consumed < |s| then es + PureParse(find, header, s[u.consumed..]) else es
  {
    FirstSpanned(s);
  }

  lemma LineOne(find: Lookup)
    requires find("AB:C") == Some(0)
    ensures ParseLine(find, THREE) == [Execute(0, "AB:C", "")] + ParseFrom(find, FIRST, TWO)
    ensures PureParse(find, "", THREE) == [Execute(0, "AB:C", "")] + PureParse(find, "AB:C", TWO)
  {
    UnitThree();
    FirstFound(find, ScanUnit(THREE));
    ParseIs(find, START, THREE, ScanUnit(THREE));
    PureIs(find, "", THREE, ScanUnit(THREE));
  }

  lemma LineTwo(find: Lookup)
    requires find("AB:X") == None
    ensures exists e :: ParseFrom(find, FIRST, TWO) == [e] + ParseFrom(find, SECOND, ONE)
    ensures exists e :: PureParse(find, "AB:C", TWO) == [e] + PureParse(find, "AB:C", ONE)
  {
    UnitTwo();
    var u := ScanUnit(TWO);
    SecondSpoils(find, u);
    ParseIs(find, FIRST, TWO, u);
    PureIs(find, "AB:C", TWO, u);
    var es, fs := Handle(find, FIRST, "X;", u).1, PureHandle(find, "AB:C", "X;", u).1;
    assert es == [es[0]] && fs == [fs[0]];
  }

  lemma LineThree(find: Lookup)
    requires find("AB:C") == Some(0) && find("C") == None
    ensures ParseFrom(find, SECOND, ONE) == [UndefinedHeader("C")]
    ensures PureParse(find, "AB:C", ONE) == [Execute(0, "AB:C", "")]
  {
    UnitOne();
    ThirdInPlace(find, ScanUnit(ONE));
    ThirdOnACopy(find, ScanUnit(ONE));
    ParseIs(find, SECOND, ONE, ScanUnit(ONE));
    PureIs(find, "AB:C", ONE, ScanUnit(ONE));
  }

  /** An undefined header can spoil the path that the header behind it continues. */
  lemma UndefinedHeaderSpoilsPath(find: Lookup)
    requires find("AB:C") == Some(0) && find("AB:X") == None && find("C") == None
    ensures ParseLine(find, THREE) != PureParse(find, "", THREE)
  {
    LineOne(find);
    LineTwo(find);
    LineThree(find);
    assert |ParseLine(find, THREE)| == 3 && ParseLine(find, THREE)[2] == UndefinedHeader("C");
    assert PureParse(find, "", THREE)[2] == Execute(0, "AB:C", "");
  }

  const SHORT := "1 ,2"

  /** The two decimals of the data, the first with a blank that is taken but not counted. */
  lemma ShortElements(s: string)
    requires (s == SHORT || s == "1 ,")
    ensures ParseData(s, 0) == Parsed(2, Token(DECIMAL_NUMERIC, 0, 1), 1)
  {
    assert Run(s, 1, Digit) == 1 && Run(s, 0, Digit) == 1 && Mantissa(s, 0) == (1, 1);
    assert Run(s, 2, Blank) == 2 && Run(s, 1, Blank) == 2 && Run(s, 0, Blank) == 0;
    assert Exponent(s, 1) == 1 && Decimal(s, 0) == 1;
    assert Run(s, 2, Letter) == 2 && Suffix(s, 2) == 2;
    assert Try(0, s, 0).ret == 0 && Try(1, s, 0).ret == 0;
    assert DecimalData(s, 0, 1) == Parsed(2, Token(DECIMAL_NUMERIC, 0, 1), 1);
    FirstDecimal(s, 0, 1);
    ParseDataBy(s, 0, 0, DecimalData(s, 0, 1), 2);
  }

  /** Only the decimal recogniser succeeds at a digit. */
  lemma FirstDecimal(s: string, p: nat, d: nat)
    requires p < |s| && IsDigit(s[p]) && d == Decimal(s, p) > p
    ensures FirstFrom(0, s, p) == DecimalData(s, p, d)
  {
    assert Try(0, s, p) == Parsed(p, Token(UNKNOWN, p, 0), 0);
    assert Try(1, s, p) == Parsed(p, Token(UNKNOWN, p, 0), 0);
    assert FirstFrom(0, s, p) == FirstFrom(2, s, p);
  }

  lemma LastElement()
    ensures ParseData(SHORT, 3) == Parsed(4, Token(DECIMAL_NUMERIC, 3, 1), 1)
  {
    var s := SHORT;
    assert Run(s, 4, Digit) == 4 && Run(s, 3, Digit) == 4 && Mantissa(s, 3) == (4, 1);
    assert Run(s, 4, Blank) == 4 && Run(s, 3, Blank) == 3;
    assert Exponent(s, 4) == 4 && Decimal(s, 3) == 4;
    assert Run(s, 4, Letter) == 4 && Suffix(s, 4) == 4;
    FirstDecimal(s, 3, 4);
    ParseDataBy(s, 3, 3, DecimalData(s, 3, 4), 4);
  }

  lemma NoElement(s: string)
    ensures ParseData(s, |s|).token.kind == UNKNOWN
  {
    ParseDataIs(s, |s|);
    assert FirstFrom(4, s, |s|) == Try(5, s, |s|) && FirstFrom(2, s, |s|) == FirstFrom(4, s, |s|);
    assert FirstFrom(0, s, |s|) == FirstFrom(2, s, |s|);
  }

  /**
   The data `1 ,2` count for three bytes although they take four, and the second parameter read from these is
   malformed.
   */
  lemma ShortData()
    ensures AllData(SHORT, 0) == Scanned(4, true, 3, 2)
    ensures ReadParameter(Of(SHORT[..3]), 0, 0) == Got(Token(DECIMAL_NUMERIC, 0, 1), 2)
    ensures ReadParameter(Of(SHORT[..3]), 2, 1).BadData?
  {
    ShortElements(SHORT);
    LastElement();
    assert AllData(SHORT, 3) == Scanned(4, true, 1, 1);
    assert SHORT[..3] == "1 ,";
    ShortElements("1 ,");
    NoElement("1 ,");
  }

  /** On these data scanner and reader disagree, as the condition for their agreement says. */
  lemma ShortDataDisagree()
    ensures Sane(Of(SHORT)) && All(Of(SHORT), 0).ok && LastEnd(Of(SHORT), 0) == 4
    ensures AllData(SHORT, 0).len == 3 && !Agrees(SHORT, 0, 3)
  {
    ShortData();
    ShortElements(SHORT);
    LastElement();
    ScannerReaderAgree(SHORT, 0);
    assert LastEnd(Of(SHORT), 3) == 4;
    assert LastEnd(Of(SHORT), 0) == LastEnd(Of(SHORT), 3);
  }
}
