/** A block on its way through the line reader, the input buffer and the parameter reader. */
module EndToEnd {
  import opened Base
  import opened Lexer
  import opened Scanner
  import opened Extension
  import opened Messages
  import opened Patterns
  import opened PatternLanguage
  import opened LineParser
  import opened LineEndings
  import opened Chunks
  import opened Joining
  import opened Reader
  import opened Parameters
  import opened Blocks
  import LineDecoder
  import opened ErrorCodes

  /** `SCPI_ParamArbitraryBlock`. */
  method ParamArbitraryBlock(list: ParameterList, mandatory: bool) returns (ok: bool, value: Token)
    requires list.state.InRange()
    modifies list, list.state
    ensures list.state.InRange()
    ensures var r := ReadParameter(Of(list.state.buffer), old(list.state.pos), old(list.inputCount));
      && ok == (r.Got? && r.token.kind == ARBITRARY_BLOCK) && (ok ==> value == r.token)
      && list.state.pos == PosAfter(r, old(list.state.pos)) && list.inputCount == CountAfter(r, old(list.inputCount))
      && list.errors == old(list.errors) + if ok then [] else if r.Got? then [DATA_TYPE_ERROR]
        else ReadErrors(r, mandatory)
  {
    ok, value := list.Parameter(mandatory);
    if ok && value.kind != ARBITRARY_BLOCK {
      list.errors := list.errors + [DATA_TYPE_ERROR];
      ok := false;
    }
  }

  const NAME := "NN:INFE:DATA?"
  const FRONT := "NN:INFE:DATA? "

  function Block(payload: string): string
    requires |payload| < BLOCK_LIMIT
  {
    BlockHeader(|payload|) + payload
  }

  lemma NameHeader(s: string)
    requires |s| > 14 && s[..14] == FRONT && s[14] == '#'
    ensures Run(s, 0, Blank) == 0 && Run(s, 13, Blank) == 14
    ensures LexProgramHeader(s, 0) == Lexed(13, Token(COMPOUND_QUERY_HEADER, 0, 13))
  {
    assert forall i | 0 <= i < 14 :: s[i] == FRONT[i];
    NameWords(s);
    assert CompoundTail(s, 12) == (12, true);
    assert CompoundTail(s, 7) == (12, true);
    assert CompoundTail(s, 2) == (12, true);
    assert Run(s, 14, Blank) == 14;
  }

  lemma NameWords(s: string)
    requires |s| > 14 && forall i | 0 <= i < 14 :: s[i] == FRONT[i]
    ensures Mnemonic(s, 0) == 2 && Mnemonic(s, 3) == 7 && Mnemonic(s, 8) == 12
  {
    assert Run(s, 2, WordChar) == 2 && Run(s, 1, WordChar) == 2;
    assert Run(s, 7, WordChar) == 7 && Run(s, 6, WordChar) == 7 && Run(s, 5, WordChar) == 7 && Run(s, 4, WordChar) == 7;
    assert Run(s, 12, WordChar) == 12 && Run(s, 11, WordChar) == 12 && Run(s, 10, WordChar) == 12;
    assert Run(s, 9, WordChar) == 12;
  }

  /** The data of the line are its block, whatever the payload. */
  lemma DataOfLine(payload: string, rest: string)
    requires |payload| < BLOCK_LIMIT && (rest == "" || rest == "\r\n")
    ensures var s, n := FRONT + Block(payload) + rest, |Block(payload)|;
      AllData(s, 14) == Scanned(14 + n, true, n, 1)
  {
    var s, n := FRONT + Block(payload) + rest, |Block(payload)|;
    assert s == FRONT + BlockHeader(|payload|) + payload + rest;
    BlockRoundTrip(FRONT, payload, rest);
    assert rest != "" ==> s[14 + n] == '\r';
  }

  lemma UnitOfLine(payload: string, rest: string)
    requires |payload| < BLOCK_LIMIT && (rest == "" || rest == "\r\n")
    ensures var s, n := FRONT + Block(payload) + rest, |Block(payload)|;
      ScanUnit(s) == Unit(Token(COMPOUND_QUERY_HEADER, 0, 13), Token(ALL_PROGRAM_DATA, 14, n), 1,
        if rest == "" then NONE else NEWLINE, |s|)
  {
    ScanUnitIs(FRONT + Block(payload) + rest);
    var s, n := FRONT + Block(payload) + rest, |Block(payload)|;
    HeaderDigits(|payload|);
    assert s[..14] == FRONT && s[14] == '#';
    NameHeader(s);
    DataOfLine(payload, rest);
    if rest != "" {
      assert s[14 + n] == '\r' && s[14 + n + 1] == '\n';
    }
  }

  lemma ResolveFirst(cur: string)
    requires cur != ""
    ensures START.Inside() && Resolve(START.Prev(), cur) == cur
  {
  }

  lemma NameText(s: string, h: Token)
    requires |s| >= 14 && s[..14] == FRONT && h.ptr == 0 && h.len == 13
    ensures Text(s, h) == NAME
  {
    assert s[0..13] == s[..14][..13];
    assert FRONT[..13] == NAME;
  }

  lemma NameComposed(s: string, h: Token)
    requires |s| >= 14 && s[..14] == FRONT && h == Token(COMPOUND_QUERY_HEADER, 0, 13)
    ensures Compose(START, s, h).Prev() == NAME
  {
    ComposeResolves(START, s, h);
    NameText(s, h);
    ResolveFirst(NAME);
  }

  lemma HandledLine(find: Lookup, s: string, n: nat, u: Unit, k: nat)
    requires |s| >= 14 + n && s[..14] == FRONT && find(NAME) == Some(k)
    requires u == Unit(Token(COMPOUND_QUERY_HEADER, 0, 13), Token(ALL_PROGRAM_DATA, 14, n), 1, NEWLINE, |s|)
    ensures Handle(find, START, s, u).1 == [Execute(k, NAME, s[14..14 + n])]
  {
    NameComposed(s, u.header);
  }

  /** The line with its terminator executes one command, with the block as its data. */
  lemma ParsedLine(find: Lookup, payload: string, k: nat)
    requires |payload| < BLOCK_LIMIT && find(NAME) == Some(k)
    ensures ParseLine(find, FRONT + Block(payload) + "\r\n") == [Execute(k, NAME, Block(payload))]
  {
    var s, n := FRONT + Block(payload) + "\r\n", |Block(payload)|;
    UnitOfLine(payload, "\r\n");
    LineParts(payload);
    HandledLine(find, s, n, ScanUnit(s), k);
    WholeLine(find, s, ScanUnit(s));
  }

  lemma LineParts(payload: string)
    requires |payload| < BLOCK_LIMIT
    ensures var s := FRONT + Block(payload) + "\r\n";
      |s| == 16 + |Block(payload)| && s[..14] == FRONT && s[14..14 + |Block(payload)|] == Block(payload)
  {
  }

  /** A line that is one unit. */
  lemma WholeLine(find: Lookup, s: string, u: Unit)
    requires u == ScanUnit(s) && u.consumed == |s| && Spanned(u, s)
    ensures ParseLine(find, s) == Handle(find, START, s, u).1
  {
    SliceAll(s);
    ParseIs(find, START, s, u);
  }

  /** The line alone is kept; the terminator makes it a message. */
  lemma LineIsMessage(payload: string)
    requires |payload| < BLOCK_LIMIT
    ensures MessageEnd(FRONT + Block(payload)) == None
    ensures MessageEnd(FRONT + Block(payload) + "\r\n") == Some(|FRONT + Block(payload) + "\r\n"|)
  {
    var line := FRONT + Block(payload);
    UnitOfLine(payload, "");
    assert line + "" == line;
    UnitOfLine(payload, "\r\n");
    NextUnit(line);
    NextUnit(line + "\r\n");
  }

  /**
   Feeding the line and then the terminator to an empty buffer of 2048 bytes executes the command with the block as
   data.
   */
  lemma FedLine(find: Lookup, payload: string, k: nat)
    requires find(NAME) == Some(k) && |payload| < BLOCK_LIMIT && |FRONT + Block(payload)| <= 2045
    ensures FeedAll(find, 2048, "", [FRONT + Block(payload), "\r\n"]) == ("", [Execute(k, NAME, Block(payload))])
  {
    LineIsMessage(payload);
    ParsedLine(find, payload, k);
    FedMessage(find, FRONT + Block(payload));
  }

  lemma FedMessage(find: Lookup, line: string)
    requires MessageEnd(line) == None && 0 < |line| <= 2045 && MessageEnd(line + "\r\n") == Some(|line + "\r\n"|)
    ensures FeedAll(find, 2048, "", [line, "\r\n"]) == ("", ParseLine(find, line + "\r\n"))
  {
    var es := FirstFed(find, line);
    var fs := LastFed(find, line, line + "\r\n");
    FedTwo(find, line, "\r\n", line, es, fs);
    assert es + fs == fs;
  }

  lemma FirstFed(find: Lookup, line: string) returns (es: seq<Event>)
    requires MessageEnd(line) == None && 0 < |line| <= 2045
    ensures es == [] && Feed(find, 2048, "", line) == (line, es)
  {
    es := [];
    SliceAll(line);
    NoMessage(find, line);
  }

  lemma LastFed(find: Lookup, line: string, all: string) returns (fs: seq<Event>)
    requires all == line + "\r\n" && |line| <= 2045 && MessageEnd(all) == Some(|all|)
    ensures fs == ParseLine(find, all) && Feed(find, 2048, line, "\r\n") == ("", fs)
  {
    fs := ParseLine(find, all);
    FeedFits(find, 2048, line, "\r\n");
    WholeMessage(find, all);
  }

  lemma FeedOne(find: Lookup, pending: string, b: string)
    ensures FeedAll(find, 2048, pending, [b]) == Feed(find, 2048, pending, b)
  {
    var x := Feed(find, 2048, pending, b);
    assert [b][1..] == [];
    assert FeedAll(find, 2048, x.0, []) == (x.0, []);
    assert x.1 + [] == x.1;
  }

  lemma FedTwo(find: Lookup, a: string, b: string, kept: string, es: seq<Event>, fs: seq<Event>)
    requires Feed(find, 2048, "", a) == (kept, es) && Feed(find, 2048, kept, b) == ("", fs)
    ensures FeedAll(find, 2048, "", [a, b]) == ("", es + fs)
  {
    assert [a, b][1..] == [b];
    FeedOne(find, kept, b);
  }

  /** Reading the only parameter of the command gives the payload and leaves nothing unread. */
  lemma ReadBlock(payload: string)
    requires |payload| < BLOCK_LIMIT
    ensures var h, data := |BlockHeader(|payload|)|, Block(payload);
      && ReadParameter(Of(data), 0, 0) == Got(Token(ARBITRARY_BLOCK, h, |payload|), |data|)
      && data[h..h + |payload|] == payload
  {
    var data := Block(payload);
    BlockRoundTrip("", payload, "");
    assert "" + BlockHeader(|payload|) + payload + "" == data;
    HeaderDigits(|payload|);
  }

  /**
   Block transparency: a payload of any bytes, sent as a block behind the command, with every backslash, carriage
   return and line feed escaped, passes the line reader as it is, is executed as one command when the terminator
   follows, and is what the command reads as its parameter.
   */
  lemma BlockTransparency(find: Lookup, payload: string, k: nat, newline: char, rest: string)
    requires find(NAME) == Some(k) && |payload| < BLOCK_LIMIT && |FRONT + Block(payload)| <= 2045
    requires newline == '\n' || newline == '\r'
    ensures var line := FRONT + Block(payload);
      LineDecoder.ReadLine(LineDecoder.Escaped(line) + [newline] + rest, 0, false, 2047, "")
        == LineDecoder.Line(line, |LineDecoder.Escaped(line)| + 1, false, true)
    ensures FeedAll(find, 2048, "", [FRONT + Block(payload), "\r\n"]) == ("", [Execute(k, NAME, Block(payload))])
    ensures var h, data := |BlockHeader(|payload|)|, Block(payload);
      && ReadParameter(Of(data), 0, 0) == Got(Token(ARBITRARY_BLOCK, h, |payload|), |data|)
      && data[h..h + |payload|] == payload
  {
    LineDecoder.LineRoundTrip(FRONT + Block(payload), newline, rest, 2047);
    FedLine(find, payload, k);
    ReadBlock(payload);
  }

  const INFER := Pattern(false, [Elem("NN", false), Elem("INFEr", false), Elem("DATA", false)], true)

  lemma SplitTwo(a: string, b: string, c: string)
    requires ':' !in a && ':' !in b && ':' !in c
    ensures Split(a + ":" + (b + ":" + c)) == [a, b, c]
  {
    SplitWord(c, "");
    SplitWord(b, c);
    SplitWord(a, b + ":" + c);
  }

  lemma InferWords()
    ensures Split("NN:INFE:DATA") == ["NN", "INFE", "DATA"]
  {
    SplitTwo("NN", "INFE", "DATA");
    assert "NN" + ":" + ("INFE" + ":" + "DATA") == "NN:INFE:DATA";
  }

  lemma InferBody()
    ensures Body(INFER, NAME) == Some("NN:INFE:DATA")
  {
    assert NAME[..12] == "NN:INFE:DATA";
  }

  lemma InferSpelled()
    ensures Spells("NN", "NN") && Spells("INFEr", "INFE") && Spells("DATA", "DATA")
  {
    StemSpells("NN");
    StemSpells("DATA");
    var kw := "INFEr";
    assert kw[1..] == "NFEr" && kw[1..][1..] == "FEr" && kw[2..][1..] == "Er" && kw[3..][1..] == "r";
    assert ShortPos("r") == 0 && ShortPos("Er") == 1 && ShortPos("FEr") == 2 && ShortPos("NFEr") == 3;
    assert ShortPos(kw) == 4;
    assert Stem(kw)[..4] == "INFE";
  }

  /** The matcher sees the command in its pattern `NN:INFEr:DATA?`. */
  lemma InferMatches()
    ensures Match(INFER, NAME)
  {
    InferWords();
    InferBody();
    InferSpelled();
    InferGreedy();
  }

  lemma InferGreedy()
    requires Spells("NN", "NN") && Spells("INFEr", "INFE") && Spells("DATA", "DATA")
    ensures Greedy(INFER.els, ["NN", "INFE", "DATA"])
  {
    var a, b, c := Elem("NN", false), Elem("INFEr", false), Elem("DATA", false);
    assert Greedy([], []);
    GreedyTakes(c, [], "DATA", []);
    assert [c] + [] == [c] && ["DATA"] + [] == ["DATA"];
    GreedyTakes(b, [c], "INFE", ["DATA"]);
    GreedyTakes(a, [b, c], "NN", ["INFE", "DATA"]);
    assert INFER.els == [a] + [b, c] && [b] + [c] == [b, c];
  }

  /** The text of that pattern. */
  lemma InferRendered()
    ensures WellFormed(INFER) && Render(INFER) == "NN:INFEr:DATA?"
  {
    InferWellFormed();
    PatternTexts();
    RenderThree(INFER, "NN", "INFEr", "DATA", "NN:INFEr:DATA?");
  }

  lemma TailOfTwo(b: Elem, c: Elem)
    requires !b.opt && !c.opt
    ensures RenderTail([b, c]) == ":" + b.kw + (":" + c.kw)
  {
    assert [b, c][1..] == [c] && [c][1..] == [];
    assert RenderTail([]) == "";
    assert RenderTail([c]) == ":" + c.kw + "";
  }

  lemma InferWellFormed()
    ensures WellFormed(INFER)
  {
    LettersAreKeyword("NN");
    LettersAreKeyword("INFEr");
    LettersAreKeyword("DATA");
  }

  const EXAMPLE := Pattern(false, [Elem("NN", false), Elem("INFEr", false), Elem("EXAMple", false)], true)
  const EXIT := Pattern(false, [Elem("EXT", false)], false)

  /** The command table of the application. */
  const COMMANDS := [EXAMPLE, INFER, EXIT]

  lemma ExampleNotSpelled()
    ensures !Spells("EXAMple", "DATA")
  {
    var kw := "EXAMple";
    assert kw[1..] == "XAMple" && kw[2..] == "AMple" && kw[3..] == "Mple" && kw[4..] == "ple";
    assert kw[1..][1..] == kw[2..] && kw[2..][1..] == kw[3..] && kw[3..][1..] == kw[4..];
    assert ShortPos(kw[4..]) == 0 && ShortPos(kw[3..]) == 1 && ShortPos(kw[2..]) == 2 && ShortPos(kw[1..]) == 3;
    assert Stem(kw) == kw && ShortPos(kw) == 4;
    assert ToLower(kw[..4][0]) == 'e' && ToLower("DATA"[..4][0]) == 'd';
  }

  lemma ExampleDoesNotMatch()
    ensures !Match(EXAMPLE, NAME)
  {
    InferWords();
    ExampleBody();
    InferSpelled();
    ExampleNotSpelled();
    ExampleGreedy();
  }

  lemma ExampleBody()
    ensures Body(EXAMPLE, NAME) == Some("NN:INFE:DATA")
  {
    assert NAME[..12] == "NN:INFE:DATA";
  }

  lemma ExampleGreedy()
    requires Spells("NN", "NN") && Spells("INFEr", "INFE") && !Spells("EXAMple", "DATA")
    ensures !Greedy(EXAMPLE.els, ["NN", "INFE", "DATA"])
  {
    var a, b, c := Elem("NN", false), Elem("INFEr", false), Elem("EXAMple", false);
    assert !Greedy([c], ["DATA"]);
    GreedyTakes(b, [c], "INFE", ["DATA"]);
    GreedyTakes(a, [b, c], "NN", ["INFE", "DATA"]);
    assert EXAMPLE.els == [a] + [b, c] && [b] + [c] == [b, c];
  }

  lemma GreedyTakes(e: Elem, es: seq<Elem>, w: string, ws: seq<string>)
    requires Spells(e.kw, w)
    ensures Greedy([e] + es, [w] + ws) == Greedy(es, ws)
  {
    assert ([e] + es)[1..] == es && ([w] + ws)[1..] == ws;
  }

  /** The table of the application finds the command in its second entry. */
  lemma CommandFound()
    ensures Table(COMMANDS)(NAME) == Some(1)
  {
    InferMatches();
    ExampleDoesNotMatch();
    assert Find(COMMANDS, NAME, 1) == Some(1);
  }

  lemma LineIsPlain(payload: string)
    requires |payload| < BLOCK_LIMIT
    ensures Steady(FRONT + Block(payload) + "\r\n")
  {
    var s := FRONT + Block(payload) + "\r\n";
    UnitOfLine(payload, "\r\n");
    UnitIsPlain(payload);
    assert PlainUnits(s);
    PlainSteady(s);
  }

  lemma UnitIsPlain(payload: string)
    requires |payload| < BLOCK_LIMIT
    ensures PlainUnit(FRONT + Block(payload) + "\r\n")
  {
    var s, n := FRONT + Block(payload) + "\r\n", |Block(payload)|;
    HeaderDigits(|payload|);
    assert s[..14] == FRONT && s[14] == '#';
    NameHeader(s);
    assert s == FRONT + BlockHeader(|payload|) + payload + "\r\n";
    BlockRoundTrip(FRONT, payload, "\r\n");
    assert s[14 + n] == '\r';
  }

  /**
   The same in the application: the command of its table is executed once, with the block as its data, however the line
   and its terminator are cut on their way into the input buffer.
   */
  lemma DataCommand(payload: string, chunks: seq<string>)
    requires |payload| < BLOCK_LIMIT && Flat(chunks) == FRONT + Block(payload) + "\r\n"
    requires NoOverrun(2048, "", chunks)
    ensures FeedAll(Table(COMMANDS), 2048, "", chunks) == ("", [Execute(1, NAME, Block(payload))])
  {
    var find, s := Table(COMMANDS), FRONT + Block(payload) + "\r\n";
    CommandFound();
    LineIsPlain(payload);
    SteadyAgrees(find, s);
    LineIsMessage(payload);
    ParsedLine(find, payload, 1);
    WholeMessage(find, s);
  }

  /** The patterns of the table are written as the application writes them. */
  lemma CommandsRendered()
    ensures forall p | p in COMMANDS :: WellFormed(p)
    ensures Render(EXAMPLE) == "NN:INFEr:EXAMple?" && Render(INFER) == "NN:INFEr:DATA?" && Render(EXIT) == "EXT"
  {
    InferRendered();
    ExampleWellFormed();
    ExampleRendered();
    ExitRendered();
  }

  /** The text of a query pattern of three mandatory keywords. */
  lemma RenderThree(p: Pattern, a: string, b: string, c: string, text: string)
    requires p == Pattern(false, [Elem(a, false), Elem(b, false), Elem(c, false)], true)
    requires text == a + ":" + b + ":" + c + "?"
    ensures Render(p) == text
  {
    TailOfTwo(Elem(b, false), Elem(c, false));
    assert p.els[1..] == [Elem(b, false), Elem(c, false)];
    assert a + "" + (":" + b + (":" + c)) == a + ":" + b + ":" + c;
  }

  lemma PatternTexts()
    ensures "NN" + ":" + "INFEr" + ":" + "EXAMple" + "?" == "NN:INFEr:EXAMple?"
    ensures "NN" + ":" + "INFEr" + ":" + "DATA" + "?" == "NN:INFEr:DATA?"
  {
  }

  lemma ExampleRendered()
    ensures Render(EXAMPLE) == "NN:INFEr:EXAMple?"
  {
    PatternTexts();
    RenderThree(EXAMPLE, "NN", "INFEr", "EXAMple", "NN:INFEr:EXAMple?");
  }

  /** A keyword of letters that begins with a capital. */
  lemma LettersAreKeyword(kw: string)
    requires kw != "" && 'A' <= kw[0] <= 'Z' && forall c | c in kw :: IsAlpha(c)
    ensures WellFormedKeyword(kw)
  {
    assert kw[|kw| - 1] in kw;
  }

  lemma ExampleWellFormed()
    ensures WellFormed(EXAMPLE)
  {
    LettersAreKeyword("NN");
    LettersAreKeyword("INFEr");
    LettersAreKeyword("EXAMple");
  }

  lemma ExitRendered()
    ensures WellFormed(EXIT) && Render(EXIT) == "EXT"
  {
    assert Stem("EXT") == "EXT";
    assert EXIT.els[1..] == [] && RenderTail([]) == "";
    assert "EXT" + "" + "" == "EXT" && "" + "" + "EXT" + "" == "EXT";
  }
}
