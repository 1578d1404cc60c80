/** Program data elements as IEEE 488.2 writes them, section 7.7: each kind is one token of exactly its span. */
module Items {
  import opened Base
  import opened IntegerText
  import opened Lexer
  import opened Scanner
  import opened Numbers
  import opened Quoting
  import opened Texts
  import Blocks
  import opened Grammar

  predicate IsLetter(c: char) {
    'a' <= c <= 'z' || 'A' <= c <= 'Z'
  }

  /** A character that can go on a word. */
  predicate GoesOn(c: char) {
    IsLetter(c) || '0' <= c <= '9' || c == '_'
  }

  predicate IsWord(w: string) {
    w != "" && IsLetter(w[0]) && forall i | 0 < i < |w| :: GoesOn(w[i])
  }

  predicate IsInner(t: string) {
    forall i | 0 <= i < |t| :: ' ' <= t[i] <= '~' && t[i] !in "\"#'();"
  }

  /** An element: a number, a word, a text, a block or an expression. */
  datatype Item =
    | Plain(number: Numeric)
    | Suffixed(number: Numeric, gap: string, unit: UnitName)
    | Based(letter: char, base: nat, digits: string)
    | Word(word: string)
    | Quoted(quote: char, text: string)
    | Block(size: string, payload: string)
    | Expression(inner: string)
  {
    predicate Valid() {
      match this
      case Plain(x) => x.Valid()
      case Suffixed(x, gap, u) => x.Valid() && IsBlanks(gap) && u.Valid() && (x.power.None? ==> !u.IsPower())
      case Based(letter, base, digits) => Announces(letter, base) && digits != "" && AllDigits(digits, base)
      case Word(w) => IsWord(w)
      case Quoted(quote, text) => (quote == '"' || quote == '\'') && SevenBit(text)
      case Block(size, payload) => 0 < |size| <= 9 && IsNumeric(size) && Value(size, 10) == |payload|
      case Expression(inner) => IsInner(inner)
    }

    function Text(): string {
      match this
      case Plain(x) => x.Text()
      case Suffixed(x, gap, u) => x.Text() + (gap + u.Text())
      case Based(letter, _, digits) => ['#', letter] + digits
      case Word(w) => w
      case Quoted(quote, text) => [quote] + (Doubled(text, quote) + [quote])
      case Block(size, payload) => ['#', DigitChar(|size| % 10)] + (size + payload)
      case Expression(inner) => "(" + (inner + ")")
    }

    function Kind(): TokenType {
      match this
      case Plain(_) => DECIMAL_NUMERIC
      case Suffixed(_, _, _) => DECIMAL_NUMERIC_WITH_SUFFIX
      case Based(_, base, _) => if base == 16 then HEXNUM else if base == 8 then OCTNUM else BINNUM
      case Word(_) => PROGRAM_MNEMONIC
      case Quoted(quote, _) => if quote == '"' then DOUBLE_QUOTE else SINGLE_QUOTE
      case Block(_, _) => ARBITRARY_BLOCK
      case Expression(_) => PROGRAM_EXPRESSION
    }

    /** How much of the text stands in front of the token: the base prefix, or the header of a block. */
    function Front(): nat {
      if Based? then 2 else if Block? then 2 + |size| else 0
    }
  }

  /** What the recognisers make of an element. */
  function Seen(it: Item, p: nat, n: nat, w: nat): Parsed
    requires p + it.Front() <= n
  {
    Parsed(if it.Plain? then w else n, Token(it.Kind(), p + it.Front(), n - p - it.Front()), n - p)
  }

  lemma WordOver(s: string, p: nat, w: string, n: nat)
    requires IsWord(w) && At(s, p, w) && n == p + |w| && (n < |s| ==> !GoesOn(s[n]))
    ensures Mnemonic(s, p) == n
  {
    AtIndex(s, p, w);
    assert forall i | p + 1 <= i < n :: In(s[i], WordChar);
    RunAt(s, p + 1, n, WordChar);
  }

  lemma BareChar(s: string, n: nat, w: nat, c: char)
    requires Bare(s, n, w)
    ensures n < |s| ==> !GoesOn(s[n]) && s[n] != '"' && s[n] != '\''
  {
    StopIs(s, w);
  }

  lemma WordElement(s: string, p: nat, word: string, n: nat, w: nat)
    requires IsWord(word) && At(s, p, word) && n == p + |word| && Bare(s, n, w)
    ensures FirstFrom(0, s, p) == Parsed(n, Token(PROGRAM_MNEMONIC, p, n - p), n - p) && Run(s, p, Blank) == p
  {
    BareChar(s, n, w, ' ');
    WordOver(s, p, word, n);
    PartBegins(s, p, word);
    assert Try(0, s, p) == Parsed(p, Token(UNKNOWN, p, 0), 0);
    assert FirstFrom(0, s, p) == FirstFrom(1, s, p);
  }

  /** The closing quote is found behind the doubled text. */
  lemma {:induction false} QuoteOver(s: string, p: nat, text: string, quote: char, n: nat)
    requires At(s, p, Doubled(text, quote)) && n == p + |Doubled(text, quote)| && SevenBit(text)
    requires Sees(s, n, quote) && !Sees(s, n + 1, quote)
    ensures QuoteEnd(s, p, quote) == n
    decreases |text|
  {
    if text != "" {
      var first := if text[0] == quote then [quote, quote] else [text[0]];
      AtParts(s, p, first, Doubled(text[1..], quote));
      AtIndex(s, p, first);
      assert s[p] == first[0];
      assert |first| == 2 ==> s[p + 1] == first[1];
      QuoteOver(s, p + |first|, text[1..], quote, n);
    }
  }

  /** Nothing but a string begins with a quote. */
  lemma NotBeforeString(s: string, p: nat)
    requires p < |s| && (s[p] == '"' || s[p] == '\'' || s[p] == '(')
    ensures FirstFrom(0, s, p) == FirstFrom(3, s, p) && Run(s, p, Blank) == p
  {
    NoNumber(s, p);
    assert Try(0, s, p) == Parsed(p, Token(UNKNOWN, p, 0), 0);
    assert Try(1, s, p) == Parsed(p, Token(UNKNOWN, p, 0), 0);
    assert Try(2, s, p) == Parsed(p, Token(UNKNOWN, p, 0), 0);
    assert FirstFrom(0, s, p) == FirstFrom(1, s, p) == FirstFrom(2, s, p);
  }

  lemma NoNumber(s: string, p: nat)
    requires p < |s| && !IsDigit(s[p]) && s[p] != '+' && s[p] != '-' && s[p] != '.'
    ensures Decimal(s, p) == p
  {
    assert Run(s, p, Digit) == p;
  }

  lemma QuotedElement(s: string, p: nat, quote: char, text: string, n: nat, w: nat)
    requires (quote == '"' || quote == '\'') && SevenBit(text) && At(s, p, [quote] + (Doubled(text, quote) + [quote]))
    requires n == p + 2 + |Doubled(text, quote)| && Bare(s, n, w)
    ensures Run(s, p, Blank) == p
    ensures FirstFrom(0, s, p) ==
      Parsed(n, Token(if quote == '"' then DOUBLE_QUOTE else SINGLE_QUOTE, p, n - p), n - p)
  {
    var d := Doubled(text, quote);
    AtParts(s, p, [quote], d + [quote]);
    AtParts(s, p + 1, d, [quote]);
    PartBegins(s, p, [quote]);
    PartBegins(s, n - 1, [quote]);
    BareChar(s, n, w, quote);
    QuoteOver(s, p + 1, text, quote, n - 1);
    NotBeforeString(s, p);
  }

  lemma ExpressionElement(s: string, p: nat, inner: string, n: nat)
    requires IsInner(inner) && At(s, p, "(" + (inner + ")")) && n == p + 2 + |inner|
    ensures FirstFrom(0, s, p) == Parsed(n, Token(PROGRAM_EXPRESSION, p, n - p), n - p) && Run(s, p, Blank) == p
  {
    ExpressionOver(s, p, inner, n);
    NotBeforeString(s, p);
    NotString(s, p);
    assert Try(5, s, p) == Parsed(n, Token(PROGRAM_EXPRESSION, p, n - p), n - p);
  }

  lemma ExpressionOver(s: string, p: nat, inner: string, n: nat)
    requires IsInner(inner) && At(s, p, "(" + (inner + ")")) && n == p + 2 + |inner|
    ensures p < |s| && s[p] == '(' && LexProgramExpression(s, p) == Lexed(n, Token(PROGRAM_EXPRESSION, p, n - p))
  {
    AtParts(s, p, "(", inner + ")");
    AtParts(s, p + 1, inner, ")");
    PartBegins(s, p, "(");
    PartBegins(s, n - 1, ")");
    InnerOver(s, p + 1, inner);
  }

  /** Without its closing parenthesis, or with a character inside that may not be there, it is none. */
  lemma BrokenExpression(s: string, p: nat, inner: string)
    requires IsInner(inner) && At(s, p, "(" + inner)
    requires var q := p + 1 + |inner|;
      q < |s| ==> s[q] in "\"#'(;" || s[q] < ' ' || s[q] > '~'
    ensures LexProgramExpression(s, p) == Nothing(p)
  {
    var q := p + 1 + |inner|;
    AtParts(s, p, "(", inner);
    PartBegins(s, p, "(");
    forall i | 0 <= i < |inner| ensures In(inner[i], ExpressionChar) {
    }
    RunOver(s, p + 1, inner, ExpressionChar);
  }

  lemma NotString(s: string, p: nat)
    requires p < |s| && s[p] == '('
    ensures FirstFrom(3, s, p) == FirstFrom(5, s, p)
  {
    assert Try(3, s, p) == Parsed(p, Token(UNKNOWN, p, 0), 0);
    assert Try(4, s, p) == Parsed(p, Token(UNKNOWN, p, 0), 0);
    assert FirstFrom(3, s, p) == FirstFrom(4, s, p);
  }

  lemma InnerOver(s: string, p: nat, inner: string)
    requires IsInner(inner) && At(s, p, inner) && Sees(s, p + |inner|, ')')
    ensures Run(s, p, ExpressionChar) == p + |inner|
  {
    forall i | 0 <= i < |inner| ensures In(inner[i], ExpressionChar) {
    }
    RunOver(s, p, inner, ExpressionChar);
  }

  lemma SizeOver(s: string, p: nat, size: string, q: nat)
    requires IsNumeric(size) && At(s, p, size) && q == p + |size|
    ensures LengthDigits(s, p, |size|, 0) == (q, 0, Value(size, 10))
  {
    AtIndex(s, p, size);
    assert s == s[..p] + size + s[q..];
    Blocks.LengthDigitsOf(s[..p], size, s[q..], 0);
    assert size[..0] == "";
  }

  lemma BlockOver(s: string, p: nat, size: string, payload: string, n: nat)
    requires 0 < |size| <= 9 && IsNumeric(size) && Value(size, 10) == |payload|
    requires At(s, p, ['#', DigitChar(|size|)] + (size + payload)) && n == p + 2 + |size| + |payload|
    ensures Sees(s, p, '#') && p + 1 < |s| && IsDigit(s[p + 1])
    ensures LexArbitraryBlockProgramData(s, p) == Lexed(n, Token(ARBITRARY_BLOCK, p + 2 + |size|, |payload|))
  {
    BlockParts(s, p, DigitChar(|size|), size, payload);
    SizeOver(s, p + 2, size, p + 2 + |size|);
    assert DigitChar(|size|) as int - '0' as int == |size|;
  }

  lemma BlockParts(s: string, p: nat, c: char, size: string, payload: string)
    requires At(s, p, ['#', c] + (size + payload))
    ensures p + 2 + |size| + |payload| <= |s| && s[p] == '#' && s[p + 1] == c && At(s, p + 2, size)
  {
    AtParts(s, p, ['#', c], size + payload);
    AtParts(s, p + 2, size, payload);
    AtIndex(s, p, ['#', c]);
    assert s[p] == ['#', c][0] && s[p + 1] == ['#', c][1];
  }

  lemma BlockElement(s: string, p: nat, size: string, payload: string, n: nat)
    requires 0 < |size| <= 9 && IsNumeric(size) && Value(size, 10) == |payload|
    requires At(s, p, ['#', DigitChar(|size|)] + (size + payload)) && n == p + 2 + |size| + |payload|
    ensures FirstFrom(0, s, p) == Parsed(n, Token(ARBITRARY_BLOCK, p + 2 + |size|, |payload|), n - p)
    ensures Run(s, p, Blank) == p
  {
    BlockOver(s, p, size, payload, n);
    Blocks.AtBlock(s, p);
  }

  lemma SuffixedElement(s: string, p: nat, it: Item, n: nat, w: nat)
    requires it.Suffixed? && it.Valid() && At(s, p, it.Text()) && n == p + |it.Text()| && Bare(s, n, w)
    ensures FirstFrom(0, s, p) == Parsed(n, Token(DECIMAL_NUMERIC_WITH_SUFFIX, p, n - p), n - p)
    ensures Run(s, p, Blank) == p
  {
    var x, gap, u := it.number, it.gap, it.unit;
    var a := p + |x.Text()|;
    AtParts(s, p, x.Text(), gap + u.Text());
    AtParts(s, a, gap, u.Text());
    BlanksOver(s, a, a + |gap|, gap);
    SuffixElement(s, p, x, a, a + |gap|, u, n, w);
  }

  lemma NumberElement(s: string, p: nat, it: Item, n: nat, w: nat)
    requires it.Valid() && At(s, p, it.Text()) && n == p + |it.Text()| && Bare(s, n, w)
    requires it.Plain? || it.Suffixed? || it.Based?
    ensures it.Front() <= |it.Text()|
    ensures FirstFrom(0, s, p) == Seen(it, p, n, w) && Run(s, p, Blank) == p
  {
    match it
    case Plain(x) => DecimalElement(s, p, x, n, w);
    case Suffixed(x, gap, u) => SuffixedElement(s, p, it, n, w);
    case Based(letter, base, digits) => BasedElement(s, p, letter, base, digits, n, w);
  }

  /** Each kind of element is one token of exactly its span. */
  lemma ItemElement(s: string, p: nat, it: Item, n: nat, w: nat)
    requires it.Valid() && At(s, p, it.Text()) && n == p + |it.Text()| && Bare(s, n, w)
    ensures it.Front() <= |it.Text()|
    ensures FirstFrom(0, s, p) == Seen(it, p, n, w) && Run(s, p, Blank) == p
  {
    match it
    case Word(word) => WordElement(s, p, word, n, w);
    case Quoted(quote, text) => QuotedElement(s, p, quote, text, n, w);
    case Block(size, payload) =>
      SizeDigit(|size|);
      BlockElement(s, p, size, payload, n);
    case Expression(inner) => ExpressionElement(s, p, inner, n);
    case _ => NumberElement(s, p, it, n, w);
  }

  lemma SizeDigit(n: nat)
    requires n < 10
    ensures n % 10 == n
  {
  }
}
