/** Program message units as IEEE 488.2 writes them, section 7.3: what the scanner finds is what was written. */
module Syntax {
  import opened Lexer
  import opened Scanner
  import opened Numbers
  import opened Grammar
  import opened Items
  import opened Reader
  import opened Parameters

  /** One parameter with the blanks around it. */
  datatype Entry = Entry(lead: string, item: Item, after: string) {
    predicate Valid() {
      IsBlanks(lead) && item.Valid() && IsBlanks(after)
    }

    function Text(): string {
      lead + (item.Text() + after)
    }

    /** How many bytes the scanner counts: the blanks behind an unsuffixed number are not among them. */
    function Counted(): nat {
      |lead| + |item.Text()| + if item.Plain? then 0 else |after|
    }

    /** The token of the parameter when its text begins at `p`. */
    function TokenAt(p: nat): Token
      requires item.Front() <= |item.Text()|
    {
      Token(item.Kind(), p + |lead| + item.Front(), |item.Text()| - item.Front())
    }
  }

  lemma FrontInside(it: Item)
    ensures it.Front() <= |it.Text()|
  {
  }

  lemma EntryIsData(s: string, p: nat, e: Entry, q: nat)
    requires e.Valid() && At(s, p, e.Text()) && q == p + |e.Text()| && Stop(s, q)
    ensures e.item.Front() <= |e.item.Text()| && ParseData(s, p) == Parsed(q, e.TokenAt(p), e.Counted())
  {
    var a := p + |e.lead|;
    var n := a + |e.item.Text()|;
    FrontInside(e.item);
    EntryElement(s, p, e, a, n, q);
    ParseDataBy(s, p, a, Seen(e.item, a, n, q), q);
  }

  lemma EntryElement(s: string, p: nat, e: Entry, a: nat, n: nat, q: nat)
    requires e.Valid() && At(s, p, e.Text()) && a == p + |e.lead| && n == a + |e.item.Text()| && q == n + |e.after|
    requires q <= |s| && Stop(s, q)
    ensures a + e.item.Front() <= n && n <= q && Run(s, p, Blank) == a && FirstFrom(0, s, a) == Seen(e.item, a, n, q)
    ensures Run(s, n, Blank) == q && Run(s, q, Blank) == q
  {
    AtParts(s, p, e.lead, e.item.Text() + e.after);
    AtParts(s, a, e.item.Text(), e.after);
    BlanksOver(s, n, q, e.after);
    ItemElement(s, a, e.item, n, q);
    LeadOver(s, p, e, a);
    BareEnd(s, n, q);
  }

  lemma LeadOver(s: string, p: nat, e: Entry, a: nat)
    requires e.Valid() && At(s, p, e.lead) && a == p + |e.lead| && Run(s, a, Blank) == a
    ensures Run(s, p, Blank) == a
  {
    RunOver(s, p, e.lead, Blank);
  }

  predicate AllValid(es: seq<Entry>) {
    forall i | 0 <= i < |es| :: es[i].Valid()
  }

  /** Parameters with commas between them. */
  function EntriesText(es: seq<Entry>): string {
    if es == [] then ""
    else es[0].Text() + if |es| == 1 then "" else "," + EntriesText(es[1..])
  }

  function EntriesCounted(es: seq<Entry>): nat {
    if es == [] then 0
    else es[0].Counted() + if |es| == 1 then 0 else 1 + EntriesCounted(es[1..])
  }

  function Lengths(es: seq<Entry>): (ns: seq<nat>)
    ensures |ns| == |es|
  {
    seq(|es|, i requires 0 <= i < |es| => |es[i].Text()|)
  }

  /** The token of each parameter, counted from where its text begins. */
  function OwnTokens(es: seq<Entry>): (ks: seq<Token>)
    ensures |ks| == |es|
  {
    seq(|es|, i requires 0 <= i < |es| => FrontInside(es[i].item); es[i].TokenAt(0))
  }

  /** Tokens of texts of these lengths, with commas between them, from `p` on. */
  function TokensOf(ns: seq<nat>, ks: seq<Token>, p: nat): (ts: seq<Token>)
    requires |ns| == |ks|
    ensures |ts| == |ks|
  {
    if ks == [] then [] else [FarToken(ks[0], p)] + TokensOf(ns[1..], ks[1..], p + ns[0] + 1)
  }

  function EntriesTokens(es: seq<Entry>, p: nat): (ts: seq<Token>)
    ensures |ts| == |es|
  {
    TokensOf(Lengths(es), OwnTokens(es), p)
  }

  lemma WithComma(s: string, p: nat, a: string, b: string, n: nat)
    requires At(s, p, a + ("," + b)) && n == p + |a|
    ensures At(s, p, a) && n < |s| && s[n] == ',' && At(s, n + 1, b)
  {
    AtParts(s, p, a, "," + b);
    AtParts(s, n, ",", b);
    PartBegins(s, n, ",");
  }

  /** The text of the first parameter, and what follows it. */
  lemma EntriesFirst(s: string, p: nat, es: seq<Entry>, t: string, n: nat)
    requires es != [] && At(s, p, EntriesText(es)) && t == es[0].Text() && n == p + |t|
    ensures At(s, p, t) && n <= |s|
    ensures |es| > 1 ==> n < |s| && s[n] == ',' && At(s, n + 1, EntriesText(es[1..]))
    ensures p + |EntriesText(es)| == n + if |es| == 1 then 0 else 1 + |EntriesText(es[1..])|
  {
    if |es| > 1 {
      var more := EntriesText(es[1..]);
      assert EntriesText(es) == t + ("," + more);
      WithComma(s, p, t, more, n);
    } else {
      assert EntriesText(es) == t + "";
      assert t + "" == t;
    }
  }

  lemma CommaStops(s: string, p: nat)
    requires Sees(s, p, ',')
    ensures Stop(s, p)
  {
  }

  predicate Listed(s: string, p: nat, es: seq<Entry>, q: nat) {
    && es != [] && AllValid(es) && q == p + |EntriesText(es)| <= |s| && Stop(s, q) && !Sees(s, q, ',')
  }

  /** The first parameter is found, and the others are listed behind its comma. */
  lemma FirstFound(s: string, p: nat, es: seq<Entry>, q: nat, n: nat)
    requires Listed(s, p, es, q) && At(s, p, EntriesText(es)) && n == p + |es[0].Text()|
    ensures es[0].item.Front() <= |es[0].item.Text()| && p <= n <= |s| && (Sees(s, n, ',') <==> |es| > 1)
    ensures ParseData(s, p) == Parsed(n, es[0].TokenAt(p), es[0].Counted())
    ensures |es| > 1 ==> Listed(s, n + 1, es[1..], q) && At(s, n + 1, EntriesText(es[1..]))
    ensures |es| == 1 ==> n == q
  {
    EntriesFirst(s, p, es, es[0].Text(), n);
    if |es| > 1 {
      CommaStops(s, n);
    }
    EntryIsData(s, p, es[0], n);
  }

  /** The scan takes the first parameter, and goes on behind its comma. */
  lemma FirstScanned(s: string, p: nat, es: seq<Entry>, q: nat, n: nat)
    requires Listed(s, p, es, q) && At(s, p, EntriesText(es)) && n == p + |es[0].Text()|
    ensures p <= n <= |s| && (|es| == 1 ==> AllData(s, p) == Scanned(q, true, es[0].Counted(), 1))
    ensures |es| > 1 ==> n < |s| && Listed(s, n + 1, es[1..], q) && At(s, n + 1, EntriesText(es[1..]))
    ensures |es| > 1 ==> AllData(s, p) == Behind(es[0].Counted() + 1, 1, AllData(s, n + 1))
  {
    FirstFound(s, p, es, q, n);
    DataFrom(s, p, es[0].TokenAt(p), n, es[0].Counted(), |es| > 1);
  }

  /** The scanner finds the parameters that were written, and ends behind them. */
  lemma {:induction false} EntriesAreData(s: string, p: nat, es: seq<Entry>, q: nat)
    requires Listed(s, p, es, q) && At(s, p, EntriesText(es))
    ensures p <= |s| && AllData(s, p) == Scanned(q, true, EntriesCounted(es), |es|)
    decreases |es|
  {
    var n := p + |es[0].Text()|;
    FirstScanned(s, p, es, q, n);
    if |es| > 1 {
      EntriesAreData(s, n + 1, es[1..], q);
      BehindScanned(es[0].Counted() + 1, EntriesCounted(es[1..]), q, |es| - 1);
    }
  }

  lemma BehindScanned(len: nat, more: nat, q: nat, count: nat)
    ensures Behind(len, 1, Scanned(q, true, more, count)) == Scanned(q, true, len + more, 1 + count)
  {
  }

  lemma DataFrom(s: string, p: nat, token: Token, n: nat, ret: nat, more: bool)
    requires p <= |s| && ParseData(s, p) == Parsed(n, token, ret) && token.kind != UNKNOWN &&
      (more <==> Sees(s, n, ','))
    ensures AllData(s, p) == if more then Behind(ret + 1, 1, AllData(s, n + 1)) else Scanned(n, true, ret, 1)
  {
  }

  /** The elements found from `p` on have these tokens and lengths. */
  predicate Chain(b: Source, p: nat, ns: seq<nat>, ks: seq<Token>)
    requires |ns| == |ks|
    decreases |ks|
  {
    ks != [] && p <= |b.text| && var d := b.parse(p);
      && d.token == FarToken(ks[0], p) && d.pos == p + ns[0] && (Sees(b.text, d.pos, ',') <==> |ks| > 1)
      && (|ks| > 1 ==> Chain(b, d.pos + 1, ns[1..], ks[1..]))
  }

  lemma {:induction false} ChainTokens(b: Source, p: nat, ns: seq<nat>, ks: seq<Token>)
    requires Sane(b) && |ns| == |ks| && Chain(b, p, ns, ks)
    ensures p <= |b.text| && Tokens(b, p) == TokensOf(ns, ks, p)
    decreases |ks|
  {
    if |ks| > 1 {
      ChainTokens(b, p + ns[0] + 1, ns[1..], ks[1..]);
    }
    TokensFrom(b, p, FarToken(ks[0], p), p + ns[0], |ks| > 1);
  }

  lemma FirstInChain(s: string, p: nat, es: seq<Entry>, q: nat, n: nat)
    requires Listed(s, p, es, q) && At(s, p, EntriesText(es)) && n == p + |es[0].Text()|
    ensures p <= |s| && n == p + Lengths(es)[0]
    ensures var d := ParseData(s, p);
      d.token == FarToken(OwnTokens(es)[0], p) && d.pos == n && (Sees(s, n, ',') <==> |es| > 1)
  {
    FirstFound(s, p, es, q, n);
  }

  lemma RestOfChain(es: seq<Entry>)
    requires es != []
    ensures Lengths(es)[1..] == Lengths(es[1..]) && OwnTokens(es)[1..] == OwnTokens(es[1..])
  {
  }

  /** One parameter in front of those that are found behind its comma. */
  lemma OneMoreInChain(s: string, p: nat, es: seq<Entry>, q: nat, n: nat)
    requires Listed(s, p, es, q) && At(s, p, EntriesText(es)) && n == p + |es[0].Text()|
    requires |es| > 1 ==> Chain(Of(s), n + 1, Lengths(es[1..]), OwnTokens(es[1..]))
    ensures Chain(Of(s), p, Lengths(es), OwnTokens(es))
  {
    FirstInChain(s, p, es, q, n);
    RestOfChain(es);
    ChainBy(Of(s), p, Lengths(es), OwnTokens(es), n);
  }

  lemma RestListed(s: string, p: nat, es: seq<Entry>, q: nat, n: nat)
    requires Listed(s, p, es, q) && At(s, p, EntriesText(es)) && n == p + |es[0].Text()| && |es| > 1
    ensures Listed(s, n + 1, es[1..], q) && At(s, n + 1, EntriesText(es[1..]))
  {
    FirstFound(s, p, es, q, n);
  }

  /** The parameters that were written are found one behind the other. */
  lemma {:induction false} EntriesChain(s: string, p: nat, es: seq<Entry>, q: nat)
    requires Listed(s, p, es, q) && At(s, p, EntriesText(es))
    ensures Chain(Of(s), p, Lengths(es), OwnTokens(es))
    decreases |es|
  {
    var n := p + |es[0].Text()|;
    if |es| > 1 {
      RestListed(s, p, es, q, n);
      EntriesChain(s, n + 1, es[1..], q);
    }
    OneMoreInChain(s, p, es, q, n);
  }

  lemma ChainBy(b: Source, p: nat, ns: seq<nat>, ks: seq<Token>, n: nat)
    requires |ns| == |ks| > 0 && p <= |b.text| && n == p + ns[0] && (Sees(b.text, n, ',') <==> |ks| > 1)
    requires b.parse(p).token == FarToken(ks[0], p) && b.parse(p).pos == n
    requires |ks| > 1 ==> Chain(b, n + 1, ns[1..], ks[1..])
    ensures Chain(b, p, ns, ks)
  {
  }

  /** Its tokens are those of the parameters. */
  lemma EntriesAreTokens(s: string, p: nat, es: seq<Entry>, q: nat)
    requires Listed(s, p, es, q) && At(s, p, EntriesText(es)) && Sane(Of(s))
    ensures p <= |s| && Tokens(Of(s), p) == EntriesTokens(es, p)
  {
    EntriesChain(s, p, es, q);
    ChainTokens(Of(s), p, Lengths(es), OwnTokens(es));
  }

  lemma TokensFrom(b: Source, p: nat, token: Token, n: nat, more: bool)
    requires Sane(b) && p <= |b.text| && b.parse(p).token == token && b.parse(p).pos == n &&
      (more <==> Sees(b.text, n, ','))
    ensures Tokens(b, p) == [token] + if more then Tokens(b, n + 1) else []
  {
  }

  /** A program header: a common one, or words with colons between them; either may ask a question. */
  datatype Header =
    | Common(word: string, query: bool)
    | Compound(colon: bool, word: string, more: seq<string>, query: bool)
  {
    predicate Valid() {
      IsWord(word) && (Compound? ==> forall i | 0 <= i < |more| :: IsWord(more[i]))
    }

    function Text(): string {
      (if Common? then "*" else if colon then ":" else "")
      + (word + ((if Compound? then WordsText(more) else "") + if query then "?" else ""))
    }

    function Kind(): TokenType {
      if Common? then if query then COMMON_QUERY_HEADER else COMMON_HEADER
      else if query then COMPOUND_QUERY_HEADER else COMPOUND_HEADER
    }
  }

  function WordsText(ws: seq<string>): string {
    if ws == [] then "" else ":" + (ws[0] + WordsText(ws[1..]))
  }

  /** What may follow a header: nothing that could go on it. */
  predicate HeaderEnds(s: string, q: nat) {
    q < |s| ==> !GoesOn(s[q]) && s[q] != ':' && s[q] != '?'
  }

  predicate NoWordChar(s: string, q: nat) {
    q < |s| ==> !GoesOn(s[q])
  }

  lemma WordsBegin(s: string, p: nat, ws: seq<string>, q: nat)
    requires At(s, p, WordsText(ws)) && q == p + |WordsText(ws)| && NoWordChar(s, q)
    ensures NoWordChar(s, p) && (ws != [] ==> Sees(s, p, ':')) && (ws == [] ==> p == q)
  {
    PartBegins(s, p, WordsText(ws));
  }

  lemma {:induction false} WordsOver(s: string, p: nat, ws: seq<string>, q: nat)
    requires (forall i | 0 <= i < |ws| :: IsWord(ws[i])) && At(s, p, WordsText(ws)) && q == p + |WordsText(ws)|
    requires NoWordChar(s, q) && !Sees(s, q, ':')
    ensures p <= |s| && CompoundTail(s, p) == (q, true)
    decreases |ws|
  {
    if ws != [] {
      AtParts(s, p, ":", ws[0] + WordsText(ws[1..]));
      AtParts(s, p + 1, ws[0], WordsText(ws[1..]));
      PartBegins(s, p, ":");
      var n := p + 1 + |ws[0]|;
      WordsBegin(s, n, ws[1..], q);
      WordOver(s, p + 1, ws[0], n);
      WordsOver(s, n, ws[1..], q);
    }
  }

  /** The parts of a header lie one behind the other. */
  lemma HeaderParts(s: string, p: nat, h: Header, a: nat, m: nat, e: nat)
    requires At(s, p, h.Text()) && a == p + (if h.Common? || h.colon then 1 else 0) && m == a + |h.word|
    requires e == m + if h.Compound? then |WordsText(h.more)| else 0
    ensures a <= |s| && (h.Common? ==> s[p] == '*') && (h.Compound? && h.colon ==> s[p] == ':')
    ensures At(s, a, h.word) && (h.Compound? ==> At(s, m, WordsText(h.more)))
    ensures e + (if h.query then 1 else 0) == p + |h.Text()| <= |s| && (h.query ==> s[e] == '?')
  {
    var first := if h.Common? then "*" else if h.colon then ":" else "";
    var words := if h.Compound? then WordsText(h.more) else "";
    var mark := if h.query then "?" else "";
    AtParts(s, p, first, h.word + (words + mark));
    AtParts(s, a, h.word, words + mark);
    AtParts(s, m, words, mark);
    PartBegins(s, p, first);
    PartBegins(s, e, mark);
  }

  lemma CommonIsToken(s: string, p: nat, h: Header, q: nat, a: nat, m: nat)
    requires h.Common? && h.Valid() && At(s, p, h.Text()) && q == p + |h.Text()| && HeaderEnds(s, q)
    requires a == p + 1 && m == a + |h.word|
    ensures LexProgramHeader(s, p) == Lexed(q, Token(h.Kind(), p, q - p)) && s[p] == '*'
  {
    HeaderParts(s, p, h, a, m, m);
    WordOver(s, a, h.word, m);
  }

  lemma CompoundIsToken(s: string, p: nat, h: Header, q: nat, a: nat, m: nat, e: nat)
    requires h.Compound? && h.Valid() && At(s, p, h.Text()) && q == p + |h.Text()| && HeaderEnds(s, q)
    requires a == p + (if h.colon then 1 else 0) && m == a + |h.word| && e == m + |WordsText(h.more)|
    ensures LexProgramHeader(s, p) == Lexed(q, Token(h.Kind(), p, q - p)) && (s[p] == ':' || IsAlpha(s[p]))
  {
    HeaderParts(s, p, h, a, m, e);
    PartBegins(s, a, h.word);
    WordsBegin(s, m, h.more, e);
    WordsOver(s, m, h.more, e);
    WordOver(s, a, h.word, m);
  }

  /** A header is one token of exactly its span. */
  lemma HeaderIsToken(s: string, p: nat, h: Header, q: nat)
    requires h.Valid() && At(s, p, h.Text()) && q == p + |h.Text()| && HeaderEnds(s, q)
    ensures p < q <= |s| && LexProgramHeader(s, p) == Lexed(q, Token(h.Kind(), p, q - p))
    ensures s[p] != ' ' && s[p] != '\t'
  {
    var a := p + if h.Common? || h.colon then 1 else 0;
    if h.Common? {
      CommonIsToken(s, p, h, q, a, a + |h.word|);
    } else {
      CompoundIsToken(s, p, h, q, a, a + |h.word|, a + |h.word| + |WordsText(h.more)|);
    }
  }

  /** What ends a unit. */
  datatype Ending = Semicolon | LineFeed | Return | ReturnLineFeed | EndOfBuffer {
    function Text(): string {
      match this
      case Semicolon => ";"
      case LineFeed => "\n"
      case Return => "\r"
      case ReturnLineFeed => "\r\n"
      case EndOfBuffer => ""
    }

    /** A carriage return takes a line feed behind it, and only the end of the buffer is empty. */
    predicate Before(rest: string) {
      (Return? ==> !Sees(rest, 0, '\n')) && (EndOfBuffer? ==> rest == "")
    }

    function Kind(): Termination {
      if Semicolon? then SEMI else if EndOfBuffer? then NONE else NEWLINE
    }
  }

  /** A program message unit: blanks, a header, blanks and parameters, and what ends it. */
  datatype UnitText = UnitText(lead: string, header: Header, gap: string, params: seq<Entry>, ending: Ending) {
    predicate Valid() {
      && IsBlanks(lead) && header.Valid() && IsBlanks(gap) && AllValid(params)
      && (params != [] ==> gap != "" && params[0].lead == "")
    }

    function Body(): string {
      lead + (header.Text() + (gap + EntriesText(params)))
    }

    function Text(): string {
      Body() + ending.Text()
    }

    /** Where the program data begin. */
    function DataStart(): nat {
      |lead| + |header.Text()| + |gap|
    }

    /** How many parameters the scanner counts: blanks without a parameter count as minus one. */
    function Count(): int {
      if params != [] then |params| else if gap != "" then -1 else 0
    }

    /** The unit as the scanner returns it. */
    function AsUnit(): Unit {
      Unit(Token(header.Kind(), |lead|, |header.Text()|),
           Token(if params != [] then ALL_PROGRAM_DATA else UNKNOWN, DataStart(), EntriesCounted(params)),
           Count(), ending.Kind(), |Text()|)
    }
  }

  /** The end of a unit's text stands where the unit ends. */
  predicate Ends(s: string, q: nat, ending: Ending) {
    q <= |s| && LiesAt(s, q, ending.Text()) && ending.Before(s[q + |ending.Text()|..])
  }

  predicate LiesAt(s: string, p: nat, t: string) {
    p + |t| <= |s| && s[p..p + |t|] == t
  }

  lemma EndsStop(s: string, q: nat, ending: Ending)
    requires Ends(s, q, ending)
    ensures Stop(s, q) && !Sees(s, q, ',') && HeaderEnds(s, q) && !Sees(s, q, ' ') && !Sees(s, q, '\t')
    ensures LexNewLine(s, q).pos == if ending.Kind() == NEWLINE then q + |ending.Text()| else q
    ensures Sees(s, q, ';') <==> ending.Semicolon?
    ensures q == |s| <==> ending.EndOfBuffer?
  {
    var t := ending.Text();
    assert forall i | 0 <= i < |t| :: s[q + i] == t[i];
  }

  lemma NothingIsThere(s: string, q: nat)
    requires q <= |s| && Stop(s, q)
    ensures ParseData(s, q) == Parsed(q, Token(UNKNOWN, q, 0), 0)
  {
    StopIs(s, q);
    Nothing(s, q);
    RunAt(s, q, q, Blank);
    ParseDataBy(s, q, q, Parsed(q, Token(UNKNOWN, q, 0), 0), q);
  }

  /** Without parameters nothing is recognised. */
  lemma NothingIsData(s: string, q: nat, ending: Ending)
    requires Ends(s, q, ending)
    ensures AllData(s, q) == Scanner.Scanned(q, false, 0, -1)
  {
    EndsStop(s, q, ending);
    NothingIsThere(s, q);
  }

  lemma Nothing(s: string, q: nat)
    requires q <= |s| && Stop(s, q)
    ensures FirstFrom(0, s, q) == Parsed(q, Token(UNKNOWN, q, 0), 0)
  {
    StopIs(s, q);
    assert Run(s, q, Digit) == q;
    assert Decimal(s, q) == q;
    var d := Parsed(q, Token(UNKNOWN, q, 0), 0);
    assert Try(0, s, q) == d && Try(1, s, q) == d && Try(2, s, q) == d;
    assert Try(3, s, q) == d && Try(4, s, q) == d && Try(5, s, q) == d;
    assert FirstFrom(0, s, q) == FirstFrom(1, s, q) == FirstFrom(2, s, q) == FirstFrom(3, s, q);
    assert FirstFrom(3, s, q) == FirstFrom(4, s, q) == FirstFrom(5, s, q);
  }

  /** An element does not begin with a blank. */
  lemma ItemStarts(s: string, p: nat, it: Item)
    requires it.Valid() && At(s, p, it.Text())
    ensures p < |s| && s[p] != ' ' && s[p] != '\t'
  {
    match it
    case Plain(x) =>
      NumericStarts(s, p, x);
    case Suffixed(x, gap, u) =>
      AtParts(s, p, x.Text(), gap + u.Text());
      NumericStarts(s, p, x);
    case _ =>
      PartBegins(s, p, it.Text());
  }

  lemma NumericStarts(s: string, p: nat, x: Numeric)
    requires x.Valid() && At(s, p, x.Text())
    ensures p < |s| && s[p] != ' ' && s[p] != '\t'
  {
    NumericParts(s, p, x);
    NumberBegins(s, p, x.number);
  }

  lemma EntriesStart(s: string, p: nat, es: seq<Entry>)
    requires es != [] && AllValid(es) && es[0].lead == "" && At(s, p, EntriesText(es))
    ensures p < |s| && s[p] != ' ' && s[p] != '\t'
  {
    EntriesFirst(s, p, es, es[0].Text(), p + |es[0].Text()|);
    AtParts(s, p, "", es[0].item.Text() + es[0].after);
    AtParts(s, p, es[0].item.Text(), es[0].after);
    ItemStarts(s, p, es[0].item);
  }

  /** The parts of a unit: the header at `a`, blanks at `b`, program data at `w`, and the end at `q`. */
  ghost predicate Placed(s: string, u: UnitText, a: nat, b: nat, w: nat, q: nat) {
    && a == |u.lead| && b == a + |u.header.Text()| && w == b + |u.gap| && q == w + |EntriesText(u.params)|
    && At(s, 0, u.lead) && At(s, a, u.header.Text()) && At(s, b, u.gap) && At(s, w, EntriesText(u.params))
    && Ends(s, q, u.ending) && w == u.DataStart() && q + |u.ending.Text()| == |u.Text()|
  }

  lemma AtStart(s: string, t: string, more: string)
    requires s == t + more
    ensures At(s, 0, t)
  {
  }

  lemma FourParts(s: string, a: string, b: string, c: string, d: string, more: string)
    requires s == a + (b + (c + d)) + more
    ensures At(s, 0, a) && At(s, |a|, b) && At(s, |a| + |b|, c) && At(s, |a| + |b| + |c|, d)
  {
    AtStart(s, a + (b + (c + d)), more);
    AtParts(s, 0, a, b + (c + d));
    AtParts(s, |a|, b, c + d);
    AtParts(s, |a| + |b|, c, d);
  }

  lemma Places(u: UnitText, rest: string) returns (a: nat, b: nat, w: nat, q: nat)
    requires u.Valid() && u.ending.Before(rest)
    ensures Placed(u.Text() + rest, u, a, b, w, q)
  {
    var lead, h, gap, data, end := u.lead, u.header.Text(), u.gap, EntriesText(u.params), u.ending.Text();
    a := |lead|;
    b := a + |h|;
    w := b + |gap|;
    q := w + |data|;
    TextPlaced(lead, h, gap, data, end, rest, u.Text() + rest);
    PlacedBy(u.Text() + rest, u, rest, a, b, w, q);
  }

  lemma PlacedBy(s: string, u: UnitText, rest: string, a: nat, b: nat, w: nat, q: nat)
    requires u.ending.Before(rest) && a == |u.lead| && b == a + |u.header.Text()| && w == b + |u.gap|
    requires q == w + |EntriesText(u.params)|
    requires At(s, 0, u.lead) && At(s, a, u.header.Text()) && At(s, b, u.gap) && At(s, w, EntriesText(u.params))
    requires LiesAt(s, q, u.ending.Text()) && s[q + |u.ending.Text()|..] == rest
    ensures Placed(s, u, a, b, w, q)
  {
  }

  /** The parts of a text, its end, and what follows it. */
  lemma TextPlaced(a: string, b: string, c: string, d: string, end: string, rest: string, s: string)
    requires s == a + (b + (c + d)) + end + rest
    ensures At(s, 0, a) && At(s, |a|, b) && At(s, |a| + |b|, c) && At(s, |a| + |b| + |c|, d)
    ensures var q := |a| + |b| + |c| + |d|; LiesAt(s, q, end) && s[q + |end|..] == rest
  {
    var body := a + (b + (c + d));
    assert s == body + (end + rest);
    FourParts(s, a, b, c, d, end + rest);
    EndPlaced(body, end, rest);
  }

  lemma EndPlaced(body: string, end: string, rest: string)
    ensures LiesAt(body + (end + rest), |body|, end) && (body + (end + rest))[|body| + |end|..] == rest
  {
  }

  /** The blanks behind a header end where the parameters begin, or the unit ends. */
  lemma GapEnds(s: string, u: UnitText, a: nat, b: nat, w: nat, q: nat)
    requires u.Valid() && Placed(s, u, a, b, w, q)
    ensures !Sees(s, w, ' ') && !Sees(s, w, '\t') && (w == b ==> HeaderEnds(s, b))
  {
    if u.params != [] {
      EntriesStart(s, w, u.params);
    } else {
      EndsStop(s, q, u.ending);
    }
  }

  lemma HeaderStops(s: string, u: UnitText, a: nat, b: nat, w: nat, q: nat)
    requires u.Valid() && Placed(s, u, a, b, w, q)
    ensures HeaderEnds(s, b) && Run(s, b, Blank) == w
  {
    GapEnds(s, u, a, b, w, q);
    GapOver(s, u.gap, b, w);
  }

  lemma GapOver(s: string, gap: string, b: nat, w: nat)
    requires IsBlanks(gap) && At(s, b, gap) && w == b + |gap| && !Sees(s, w, ' ') && !Sees(s, w, '\t')
    requires w == b ==> HeaderEnds(s, b)
    ensures HeaderEnds(s, b) && Run(s, b, Blank) == w
  {
    PartBegins(s, b, gap);
    RunOver(s, b, gap, Blank);
  }

  lemma BodyBy(s: string, a: nat, b: nat, w: nat, h: Token, d: Scanned)
    requires a == Run(s, 0, Blank) && LexProgramHeader(s, a) == Lexed(b, h) && w == Run(s, b, Blank)
    requires w > b ==> d == AllData(s, w)
    ensures UnitBody(s) == if w > b then (h, Token(if d.ok then ALL_PROGRAM_DATA
      else UNKNOWN, w, d.len), d.count, d.pos)
      else (h, Token(UNKNOWN, w, 0), 0, w)
  {
  }

  /** The program data of a unit. */
  lemma DataIs(s: string, u: UnitText, a: nat, b: nat, w: nat, q: nat) returns (d: Scanned)
    requires u.Valid() && Placed(s, u, a, b, w, q)
    ensures d.pos == q && (w > b ==> d == AllData(s, w) && d.ok == (u.params != []) && d.count == u.Count())
    ensures d.len == EntriesCounted(u.params)
  {
    EndsStop(s, q, u.ending);
    if u.params != [] {
      EntriesAreData(s, w, u.params, q);
      d := AllData(s, w);
    } else {
      NothingIsData(s, q, u.ending);
      d := AllData(s, w);
    }
  }

  /** Header and program data as the scanner finds them. */
  lemma BodyIs(s: string, u: UnitText, a: nat, b: nat, w: nat, q: nat)
    requires u.Valid() && Placed(s, u, a, b, w, q)
    ensures UnitBody(s) == (u.AsUnit().header, u.AsUnit().data, u.Count(), q)
  {
    HeaderStops(s, u, a, b, w, q);
    HeaderIsToken(s, a, u.header, b);
    RunOver(s, 0, u.lead, Blank);
    var d := DataIs(s, u, a, b, w, q);
    BodyBy(s, a, b, w, u.AsUnit().header, d);
  }

  /**
   Scanning what was written: whatever follows, the scanner finds the header, the parameters, their number and the end
   of a unit exactly as they were put there.
   */
  lemma UnitIsScanned(u: UnitText, rest: string)
    requires u.Valid() && u.ending.Before(rest)
    ensures ScanUnit(u.Text() + rest) == u.AsUnit()
  {
    var s := u.Text() + rest;
    var a, b, w, q := Places(u, rest);
    BodyIs(s, u, a, b, w, q);
    EndsStop(s, q, u.ending);
    ScanUnitIs(s);
  }

  /** A character that can neither go on a header nor follow it. */
  predicate IsStrange(c: char) {
    !GoesOn(c) && c != ':' && c != '?' && c != ' ' && c != '\t' && c != '\r' && c != '\n' && c != ';'
  }

  /** Such a character behind a header makes the unit invalid: it ends there, and its header is one byte long. */
  lemma StrangeUnit(lead: string, h: Header, c: char, rest: string)
    requires IsBlanks(lead) && h.Valid() && IsStrange(c)
    ensures ScanUnit(lead + h.Text() + [c] + rest) ==
      Unit(Token(INVALID, |lead|, 1), Token(UNKNOWN, 0, 0), 0, NONE, |lead| + |h.Text()| + 1)
  {
    var s, a, b := lead + h.Text() + [c] + rest, |lead|, |lead| + |h.Text()|;
    LeadAndMore(lead, h.Text(), c, rest);
    HeaderIsToken(s, a, h, b);
    RunOver(s, 0, lead, Blank);
    RunAt(s, b, b, Blank);
    BodyBy(s, a, b, b, Token(h.Kind(), a, b - a), Scanner.Scanned(b, false, 0, -1));
    ScanUnitIs(s);
  }

  lemma LeadAndMore(lead: string, t: string, c: char, rest: string)
    ensures var s := lead + t + [c] + rest; At(s, 0, lead) && At(s, |lead|, t) && s[|lead + t|] == c
  {
    var s := lead + t + [c] + rest;
    assert s == (lead + t) + ([c] + rest);
    AtStart(s, lead + t, [c] + rest);
    AtParts(s, 0, lead, t);
  }

  /** So does a character that begins no header, in front of one: a digit or an underscore too. */
  lemma StrangeStart(lead: string, c: char, rest: string)
    requires IsBlanks(lead) && (IsStrange(c) || '0' <= c <= '9' || c == '_') && c != '*'
    ensures ScanUnit(lead + [c] + rest) == Unit(Token(INVALID, |lead|, 1), Token(UNKNOWN, 0, 0), 0, NONE, |lead| + 1)
  {
    var s, a := lead + [c] + rest, |lead|;
    assert s == "" + lead + ([c] + rest);
    AtIn("", lead, [c] + rest);
    assert s[a] == c;
    RunOver(s, 0, lead, Blank);
    RunAt(s, a, a, Blank);
    assert LexProgramHeader(s, a) == Lexer.Nothing(a);
    BodyBy(s, a, a, a, Token(UNKNOWN, a, 0), Scanner.Scanned(a, false, 0, -1));
    ScanUnitIs(s);
  }

  /** A header that breaks off behind a colon or a star is one incomplete token, up to where it breaks off. */
  lemma IncompleteHeader(s: string, p: nat, h: Header, q: nat)
    requires h.Valid() && h.Compound? && !h.query && At(s, p, h.Text() + ":") && q == p + |h.Text()| + 1
    requires q < |s| ==> !IsLetter(s[q])
    ensures LexProgramHeader(s, p) == Lexed(q, Token(INCOMPLETE_COMPOUND_HEADER, p, q - p))
  {
    AtParts(s, p, h.Text(), ":");
    PartBegins(s, q - 1, ":");
    var a := p + if h.colon then 1 else 0;
    var m := a + |h.word|;
    HeaderParts(s, p, h, a, m, q - 1);
    PartBegins(s, a, h.word);
    WordsBegin(s, m, h.more, q - 1);
    WordsBreak(s, m, h.more, q - 1);
    WordOver(s, a, h.word, m);
  }

  lemma {:induction false} WordsBreak(s: string, p: nat, ws: seq<string>, q: nat)
    requires (forall i | 0 <= i < |ws| :: IsWord(ws[i])) && At(s, p, WordsText(ws)) && q == p + |WordsText(ws)|
    requires Sees(s, q, ':') && (q + 1 < |s| ==> !IsLetter(s[q + 1]))
    ensures p <= |s| && CompoundTail(s, p) == (q + 1, false)
    decreases |ws|
  {
    if ws != [] {
      AtParts(s, p, ":", ws[0] + WordsText(ws[1..]));
      AtParts(s, p + 1, ws[0], WordsText(ws[1..]));
      PartBegins(s, p, ":");
      var n := p + 1 + |ws[0]|;
      WordsBegin(s, n, ws[1..], q);
      WordOver(s, p + 1, ws[0], n);
      WordsBreak(s, n, ws[1..], q);
    }
  }

  /** So is a star or a colon alone. */
  lemma NoWordHeader(s: string, p: nat)
    requires p < |s| && (s[p] == '*' || s[p] == ':') && (p + 1 < |s| ==> !IsLetter(s[p + 1]))
    ensures var kind := if s[p] == '*' then INCOMPLETE_COMMON_HEADER else INCOMPLETE_COMPOUND_HEADER;
      LexProgramHeader(s, p) == Lexed(p + 1, Token(kind, p, 1))
  {
  }

  /** Blanks follow no unsuffixed number: then the scanner counts every byte. */
  predicate AllCounted(es: seq<Entry>) {
    forall i | 0 <= i < |es| :: es[i].item.Plain? ==> es[i].after == ""
  }

  lemma {:induction false} CountedWhole(es: seq<Entry>)
    requires AllCounted(es)
    ensures EntriesCounted(es) == |EntriesText(es)|
  {
    if es != [] {
      assert es[0].Counted() == |es[0].Text()|;
      if |es| > 1 {
        CountedWhole(es[1..]);
      }
    }
  }

  /** Everything the scanner passes over in a buffer is read back from it. */
  lemma WholeIsRead(t: string, ts: seq<Token>)
    requires AllData(t, 0).ok && AllData(t, 0).pos == |t| && Sane(Of(t)) && Tokens(Of(t), 0) == ts
    ensures ReadsBack(Of(t), 0, 0, ts)
  {
    var b := Of(t);
    assert t + "" == t;
    OfCut(t, "");
    OfAll(t, 0);
    LastEndSpan(b, 0);
    ReaderAgrees(b, b, 0);
  }

  /** A command that reads all its parameters gets what was written, in order, and then misses the next one. */
  lemma ParametersAreRead(es: seq<Entry>)
    requires es != [] && AllValid(es)
    ensures ReadsBack(Of(EntriesText(es)), 0, 0, EntriesTokens(es, 0))
  {
    var t := EntriesText(es);
    assert t == "" + t + "";
    AtIn("", t, "");
    OfSane(t);
    EntriesAreData(t, 0, es, |t|);
    EntriesAreTokens(t, 0, es, |t|);
    WholeIsRead(t, EntriesTokens(es, 0));
  }
}
