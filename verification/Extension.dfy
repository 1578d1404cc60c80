/** Scanning a buffer and scanning it with more bytes behind it. */
module Extension {
  import opened Base
  import opened Lexer
  import opened Scanner

  predicate IsNL(c: char) {
    c == '\r' || c == '\n'
  }

  /** No newline character between `p` and `q`. */
  ghost predicate Clear(s: string, p: nat, q: nat)
    requires q <= |s|
  {
    forall i | p <= i < q :: !IsNL(s[i])
  }

  /** The buffer holds no newline from `p` on. */
  ghost predicate NoNL(s: string, p: nat) {
    Clear(s, p, |s|)
  }

  lemma {:induction false} RunExt(s: string, x: string, p: nat, k: CharClass)
    requires p <= |s|
    ensures Clear(s, p, Run(s, p, k))
    ensures Run(s, p, k) == Run(s + x, p, k) || NoNL(s, p)
    decreases |s| - p
  {
    if p < |s| && In(s[p], k) {
      RunExt(s, x, p + 1, k);
    }
  }

  lemma MnemonicExt(s: string, x: string, p: nat)
    requires p <= |s|
    ensures Clear(s, p, Mnemonic(s, p))
    ensures Mnemonic(s, p) == Mnemonic(s + x, p) || NoNL(s, p)
  {
    if p < |s| {
      RunExt(s, x, p + 1, WordChar);
    }
  }

  lemma {:induction false} CompoundTailExt(s: string, x: string, p: nat)
    requires p <= |s|
    ensures Clear(s, p, CompoundTail(s, p).0)
    ensures CompoundTail(s, p) == CompoundTail(s + x, p) || NoNL(s, p)
    decreases |s| - p
  {
    if Sees(s, p, ':') {
      MnemonicExt(s, x, p + 1);
      if Mnemonic(s, p + 1) > p + 1 {
        CompoundTailExt(s, x, Mnemonic(s, p + 1));
      }
    }
  }

  lemma HeaderTokenExt(s: string, x: string, p: nat, q: nat, complete: bool, a: TokenType, b: TokenType, c: TokenType)
    requires p < q <= |s| && Clear(s, p, q)
    ensures Clear(s, p, HeaderToken(s, p, q, complete, a, b, c).pos)
    ensures HeaderToken(s, p, q, complete, a, b, c) == HeaderToken(s + x, p, q, complete, a, b, c) || NoNL(s, p)
  {
  }

  lemma ProgramHeaderExt(s: string, x: string, p: nat)
    requires p <= |s|
    ensures Clear(s, p, LexProgramHeader(s, p).pos)
    ensures LexProgramHeader(s, p) == LexProgramHeader(s + x, p) || NoNL(s, p)
  {
    if Sees(s, p, '*') {
      MnemonicExt(s, x, p + 1);
      var q := Mnemonic(s, p + 1);
      HeaderTokenExt(s, x, p, q, q > p + 1, COMMON_HEADER, COMMON_QUERY_HEADER, INCOMPLETE_COMMON_HEADER);
    } else if p < |s| {
      var p1 := SkipChr(s, p, ':');
      MnemonicExt(s, x, p1);
      var q := Mnemonic(s, p1);
      if q > p1 {
        CompoundTailExt(s, x, q);
        var (r, complete) := CompoundTail(s, q);
        HeaderTokenExt(s, x, p, r, complete, COMPOUND_HEADER, COMPOUND_QUERY_HEADER, INCOMPLETE_COMPOUND_HEADER);
      }
    }
  }

  lemma SignExt(s: string, x: string, p: nat)
    requires p <= |s|
    ensures Clear(s, p, SkipSign(s, p))
    ensures SkipSign(s, p) == SkipSign(s + x, p) || NoNL(s, p)
  {
  }

  lemma MantissaExt(s: string, x: string, p: nat)
    requires p <= |s|
    ensures Clear(s, p, Mantissa(s, p).0)
    ensures Mantissa(s, p) == Mantissa(s + x, p) || NoNL(s, p)
  {
    SignExt(s, x, p);
    var q := SkipSign(s, p);
    RunExt(s, x, q, Digit);
    var d := Run(s, q, Digit);
    if Sees(s, d, '.') {
      RunExt(s, x, d + 1, Digit);
    }
  }

  lemma ExponentExt(s: string, x: string, p: nat)
    requires p <= |s|
    ensures Clear(s, p, Exponent(s, p))
    ensures Exponent(s, p) == Exponent(s + x, p) || NoNL(s, p)
  {
    RunExt(s, x, p, Blank);
    var w := Run(s, p, Blank);
    if Sees(s, w, 'e') || Sees(s, w, 'E') {
      RunExt(s, x, w + 1, Blank);
      var b := Run(s, w + 1, Blank);
      SignExt(s, x, b);
      RunExt(s, x, SkipSign(s, b), Digit);
    }
  }

  lemma DecimalExt(s: string, x: string, p: nat)
    requires p <= |s|
    ensures Clear(s, p, Decimal(s, p))
    ensures Decimal(s, p) == Decimal(s + x, p) || NoNL(s, p)
  {
    MantissaExt(s, x, p);
    ExponentExt(s, x, Mantissa(s, p).0);
  }

  lemma SuffixUnitExt(s: string, x: string, p: nat)
    requires p <= |s|
    ensures Clear(s, p, SuffixUnit(s, p))
    ensures SuffixUnit(s, p) == SuffixUnit(s + x, p) || NoNL(s, p)
  {
    RunExt(s, x, p, Letter);
  }

  lemma {:induction false} SuffixTailExt(s: string, x: string, p: nat)
    requires p <= |s|
    ensures Clear(s, p, SuffixTail(s, p))
    ensures SuffixTail(s, p) == SuffixTail(s + x, p) || NoNL(s, p)
    decreases |s| - p
  {
    if p < |s| && (s[p] == '/' || s[p] == '.') {
      var q := SuffixUnit(s, p + 1);
      SuffixUnitExt(s, x, p + 1);
      SuffixTailExt(s, x, q);
      assert SuffixTail(s, p) == SuffixTail(s, q);
      if SuffixUnit(s + x, p + 1) == q {
        assert SuffixTail(s + x, p) == SuffixTail(s + x, q);
      }
    } else if p < |s| {
      assert (s + x)[p] == s[p];
    }
  }

  lemma SuffixExt(s: string, x: string, p: nat)
    requires p <= |s|
    ensures Clear(s, p, Suffix(s, p))
    ensures Suffix(s, p) == Suffix(s + x, p) || NoNL(s, p)
  {
    var a := SkipChr(s, p, '/');
    RunExt(s, x, a, Letter);
    SuffixUnitExt(s, x, a);
    SuffixTailExt(s, x, SuffixUnit(s, a));
  }

  lemma DecimalDataExt(s: string, x: string, p: nat, d: nat)
    requires p < d <= |s| && Clear(s, p, d)
    ensures Clear(s, p, DecimalData(s, p, d).pos)
    ensures DecimalData(s, p, d) == DecimalData(s + x, p, d) || NoNL(s, p)
  {
    RunExt(s, x, d, Blank);
    SuffixExt(s, x, Run(s, d, Blank));
  }

  lemma BasedExt(s: string, x: string, p: nat, kind: TokenType, k: CharClass)
    requires p + 2 <= |s| && Clear(s, p, p + 2)
    ensures Clear(s, p, Based(s, p, kind, k).pos)
    ensures Based(s, p, kind, k) == Based(s + x, p, kind, k) || NoNL(s, p)
  {
    BasedClear(s, p, kind, k);
    RunExt(s, x, p + 2, k);
    if NoNL(s, p + 2) {
      ClearJoin(s, p, p + 2, |s|);
    }
  }

  lemma BasedClear(s: string, p: nat, kind: TokenType, k: CharClass)
    requires p + 2 <= |s| && Clear(s, p, p + 2)
    ensures Clear(s, p, Based(s, p, kind, k).pos)
  {
    RunExt(s, "", p + 2, k);
    ClearJoin(s, p, p + 2, Run(s, p + 2, k));
  }

  lemma ClearJoin(s: string, p: nat, q: nat, r: nat)
    requires p <= q <= r <= |s| && Clear(s, p, q) && Clear(s, q, r)
    ensures Clear(s, p, r)
  {
  }

  lemma NondecimalExt(s: string, x: string, p: nat)
    requires p <= |s|
    ensures Clear(s, p, LexNondecimalNumericData(s, p).pos)
    ensures LexNondecimalNumericData(s, p) == LexNondecimalNumericData(s + x, p) || NoNL(s, p)
  {
    if p + 2 <= |s| {
      var c := s[p + 1];
      assert (s + x)[p] == s[p] && (s + x)[p + 1] == c;
      if s[p] == '#' && (c == 'h' || c == 'H') {
        BasedExt(s, x, p, HEXNUM, HexDigit);
      } else if s[p] == '#' && (c == 'q' || c == 'Q') {
        BasedExt(s, x, p, OCTNUM, OctDigit);
      } else if s[p] == '#' && (c == 'b' || c == 'B') {
        BasedExt(s, x, p, BINNUM, BinDigit);
      }
    }
  }

  lemma ExpressionExt(s: string, x: string, p: nat)
    requires p <= |s|
    ensures Clear(s, p, LexProgramExpression(s, p).pos)
    ensures LexProgramExpression(s, p) == LexProgramExpression(s + x, p) || NoNL(s, p)
  {
    if Sees(s, p, '(') {
      RunExt(s, x, p + 1, ExpressionChar);
    }
  }

  lemma {:induction false} LengthDigitsExt(s: string, x: string, p: nat, n: nat, v: nat)
    requires p <= |s|
    ensures Clear(s, p, LengthDigits(s, p, n, v).0)
    ensures LengthDigits(s, p, n, v) == LengthDigits(s + x, p, n, v)
      || (NoNL(s, p) && LengthDigits(s, p, n, v).0 == |s| && LengthDigits(s, p, n, v).1 > 0)
    decreases n
  {
    if n > 0 && p < |s| && IsDigit(s[p]) {
      LengthDigitsExt(s, x, p + 1, n - 1, v * 10 + (s[p] as int - '0' as int));
    }
  }

  /**
   A block may hold newlines: it is the same, or undecided in a rest without newlines, or it takes the whole buffer.
   */
  lemma BlockExt(s: string, x: string, p: nat)
    requires p <= |s|
    ensures var a, b := LexArbitraryBlockProgramData(s, p), LexArbitraryBlockProgramData(s + x, p);
      a == b || NoNL(s, p) || (a.pos == |s| <= b.pos)
  {
    if Sees(s, p, '#') && p + 1 < |s| && IsDigit(s[p + 1]) {
      LengthDigitsExt(s, x, p + 2, s[p + 1] as int - '0' as int, 0);
    }
  }

  /** The one possible difference between a scan that ended at `a` and one of the longer buffer that ended at `b`. */
  ghost predicate Apart(s: string, a: nat, b: nat) {
    exists q: nat :: q <= a && q <= b && q <= |s| && NoNL(s, q)
  }

  /** The buffer holds no quotes, so no string token can begin. */
  ghost predicate NoQuotes(s: string) {
    forall i | 0 <= i < |s| :: s[i] != '"' && s[i] != '\''
  }

  lemma ApartAt(s: string, q: nat, a: nat, b: nat)
    requires q <= |s| && NoNL(s, q) && q <= a && q <= b
    ensures Apart(s, a, b)
  {
  }

  lemma TryBlockExt(s: string, x: string, p: nat)
    requires p <= |s|
    ensures var a, b := Try(4, s, p), Try(4, s + x, p); a == b || Apart(s, a.pos, b.pos)
  {
    BlockExt(s, x, p);
    var a, b := Try(4, s, p).pos, Try(4, s + x, p).pos;
    if NoNL(s, p) {
      ApartAt(s, p, a, b);
    } else if a == |s| <= b {
      ApartAt(s, |s|, a, b);
    }
  }

  lemma TryDecimalExt(s: string, x: string, p: nat)
    requires p <= |s|
    ensures Try(2, s, p) == Try(2, s + x, p) || NoNL(s, p)
  {
    DecimalExt(s, x, p);
    var d := Decimal(s, p);
    if d > p {
      DecimalDataExt(s, x, p, d);
    }
  }

  predicate IsQuote(c: char) {
    c == '"' || c == '\''
  }

  /** The string that starts at `p` holds a newline, is open at the end of the buffer, and is closed by what follows. */
  ghost predicate Broken(s: string, x: string, p: nat) {
    && p < |s| && IsQuote(s[p]) && !NoNL(s, p)
    && QuoteEnd(s, p + 1, s[p]) == |s| && Sees(s + x, QuoteEnd(s + x, p + 1, s[p]), s[p])
  }

  /** A scan that ends at `b` has passed the quote that closes the string at `p`, behind the end of the buffer. */
  predicate Passes(s: string, x: string, p: nat, b: nat) {
    p < |s| && |s| <= QuoteEnd(s + x, p + 1, s[p]) < b
  }

  /** What follows the buffer doubles the quote that ends it. */
  predicate Doubled(s: string, x: string) {
    s != "" && x != "" && IsQuote(s[|s| - 1]) && x[0] == s[|s| - 1]
  }

  predicate IsString(t: Token) {
    t.kind == DOUBLE_QUOTE || t.kind == SINGLE_QUOTE
  }

  lemma {:induction false} QuoteEndExt(s: string, x: string, p: nat, quote: char)
    requires p <= |s| && IsQuote(quote)
    ensures var e, f := QuoteEnd(s, p, quote), QuoteEnd(s + x, p, quote);
      if e == |s| then f >= |s| else f == e || (Doubled(s, x) && s[e] == quote && e + 1 == |s|)
    decreases |s| - p
  {
    if p < |s| {
      assert (s + x)[p] == s[p];
      if s[p] != quote && IsAscii(s[p]) {
        QuoteEndExt(s, x, p + 1, quote);
      } else if s[p] == quote && Sees(s, p + 1, quote) {
        QuoteEndExt(s, x, p + 2, quote);
      } else if p + 1 < |s| {
        assert (s + x)[p + 1] == s[p + 1];
      }
    }
  }

  /**
   The string at `p` is the same, or undecided in a rest without newlines, or its last quote is doubled, or it was
   broken.
   */
  ghost predicate StringParts(s: string, x: string, p: nat, a: Parsed, b: Parsed)
    requires p <= |s|
  {
    || a == b
    || NoNL(s, p)
    || (Doubled(s, x) && a.pos == |s| && a.ret > 0)
    || (Broken(s, x, p) && a.ret == 0 && Passes(s, x, p, b.pos) && IsString(b.token) && b.token.ptr == p &&
      b.ret == b.token.len == b.pos - p)
  }

  lemma TryStringExt(s: string, x: string, p: nat)
    requires p <= |s|
    ensures StringParts(s, x, p, Try(3, s, p), Try(3, s + x, p))
  {
    if p < |s| {
      assert (s + x)[p] == s[p];
      if IsQuote(s[p]) {
        QuoteEndExt(s, x, p + 1, s[p]);
        QuotedParts(s, x, p, if s[p] == '"' then DOUBLE_QUOTE else SINGLE_QUOTE);
      }
    }
  }

  lemma QuotedParts(s: string, x: string, p: nat, kind: TokenType)
    requires p < |s| && IsQuote(s[p]) && (kind == DOUBLE_QUOTE || kind == SINGLE_QUOTE)
    requires var e, f := QuoteEnd(s, p + 1, s[p]), QuoteEnd(s + x, p + 1, s[p]);
      if e == |s| then f >= |s| else f == e || (Doubled(s, x) && s[e] == s[p] && e + 1 == |s|)
    ensures StringParts(s, x, p, Scanner.Plain(Quoted(s, p, s[p], kind)), Scanner.Plain(Quoted(s + x, p, s[p], kind)))
  {
    var e := QuoteEnd(s, p + 1, s[p]);
    if e < |s| {
      assert (s + x)[e] == s[e];
    }
  }

  /**
   How the results `a` and `b` of two scans part: without a newline, at a doubled quote, or where a string was broken.
   */
  ghost predicate Parts(s: string, x: string, a: Parsed, b: Parsed) {
    || Apart(s, a.pos, b.pos)
    || (Doubled(s, x) && a.pos == |s|)
    || (Broken(s, x, a.pos) && a.token.kind == UNKNOWN && Passes(s, x, a.pos, b.pos)
      && IsString(b.token) && b.token.ptr == a.pos && a.pos + b.token.len > |s|)
  }

  lemma TryExt(i: nat, s: string, x: string, p: nat)
    requires p <= |s| && i <= 5 && i != 3
    ensures var a, b := Try(i, s, p), Try(i, s + x, p); a == b || Apart(s, a.pos, b.pos)
  {
    if i == 4 {
      TryBlockExt(s, x, p);
      return;
    }
    if i == 0 {
      NondecimalExt(s, x, p);
    } else if i == 1 {
      MnemonicExt(s, x, p);
    } else if i == 2 {
      TryDecimalExt(s, x, p);
    } else {
      ExpressionExt(s, x, p);
    }
    if NoNL(s, p) {
      ApartAt(s, p, Try(i, s, p).pos, Try(i, s + x, p).pos);
    }
  }

  /** Nothing but a string starts with a quote. */
  lemma QuoteFails(s: string, p: nat)
    requires p < |s| && IsQuote(s[p])
    ensures FirstFrom(4, s, p) == Parsed(p, Token(UNKNOWN, p, 0), 0)
  {
    assert Try(4, s, p) == Try(5, s, p) == Parsed(p, Token(UNKNOWN, p, 0), 0);
  }

  lemma StringFirstExt(s: string, x: string, p: nat)
    requires p <= |s| && Try(3, s, p) != Try(3, s + x, p)
    ensures Parts(s, x, FirstFrom(3, s, p), FirstFrom(3, s + x, p))
  {
    TryStringExt(s, x, p);
    if NoNL(s, p) {
      ApartAt(s, p, FirstFrom(3, s, p).pos, FirstFrom(3, s + x, p).pos);
    } else if Try(3, s, p).ret == 0 {
      QuoteFails(s, p);
      assert FirstFrom(3, s, p) == FirstFrom(4, s, p);
    }
  }

  lemma {:induction false} FirstFromExt(i: nat, s: string, x: string, p: nat)
    requires p <= |s| && i <= 5
    ensures var a, b := FirstFrom(i, s, p), FirstFrom(i, s + x, p); a == b || Parts(s, x, a, b)
    decreases 6 - i
  {
    var a, b := Try(i, s, p), Try(i, s + x, p);
    if a == b {
      if a.ret == 0 && i < 5 {
        FirstFromExt(i + 1, s, x, a.pos);
      }
    } else if i == 3 {
      StringFirstExt(s, x, p);
    } else {
      TryExt(i, s, x, p);
      ApartAgain(s, a.pos, b.pos, FirstFrom(i, s, p).pos, FirstFrom(i, s + x, p).pos);
    }
  }

  lemma ParseDataExt(s: string, x: string, p: nat)
    requires p <= |s|
    ensures var a, b := ParseData(s, p), ParseData(s + x, p); a == b || Parts(s, x, a, b)
  {
    ParseDataIs(s, p);
    ParseDataIs(s + x, p);
    RunExt(s, x, p, Blank);
    var w := Run(s, p, Blank);
    var d, d' := FirstFrom(0, s, w), FirstFrom(0, s + x, w);
    FirstFromExt(0, s, x, w);
    RunExt(s, x, d.pos, Blank);
    if w != Run(s + x, p, Blank) {
      ApartAt(s, p, ParseData(s, p).pos, ParseData(s + x, p).pos);
    } else if d != d' {
      PartsBehind(s, x, d, d', ParseData(s, p), ParseData(s + x, p));
    } else if NoNL(s, d.pos) {
      ApartAt(s, d.pos, ParseData(s, p).pos, ParseData(s + x, p).pos);
    }
  }

  lemma PartsBehind(s: string, x: string, a: Parsed, b: Parsed, c: Parsed, d: Parsed)
    requires Parts(s, x, a, b) && a.pos <= |s| && b.pos <= |s + x|
    requires c.pos == Run(s, a.pos, Blank) && d.pos == Run(s + x, b.pos, Blank) && c.token == a.token &&
      d.token == b.token
    ensures Parts(s, x, c, d)
  {
    if Apart(s, a.pos, b.pos) {
      ApartAgain(s, a.pos, b.pos, c.pos, d.pos);
    } else if Broken(s, x, a.pos) {
      assert c.pos == a.pos;
    }
  }

  lemma ApartAgain(s: string, a: nat, b: nat, c: nat, d: nat)
    requires Apart(s, a, b) && a <= c && b <= d
    ensures Apart(s, c, d)
  {
    var q: nat :| q <= a && q <= b && q <= |s| && NoNL(s, q);
  }

  lemma AllDataNext(s: string, p: nat)
    requires p <= |s|
    requires var d := ParseData(s, p); d.token.kind != UNKNOWN && Sees(s, d.pos, ',')
    ensures var d := ParseData(s, p); AllData(s, p) == Behind(d.ret + 1, 1, AllData(s, d.pos + 1))
    ensures AllData(s, p).pos == AllData(s, ParseData(s, p).pos + 1).pos
  {
  }

  /** No string among the elements from `p` on holds a newline. */
  ghost predicate PlainData(s: string, p: nat)
    requires p <= |s|
    decreases |s| - p
  {
    var d := ParseData(s, p);
    && (IsString(d.token) && d.token.ptr + d.token.len <= |s| ==> Clear(s, d.token.ptr, d.token.ptr + d.token.len))
    && (Sees(s, d.pos, ',') ==> PlainData(s, d.pos + 1))
  }

  ghost predicate DataParts(s: string, x: string, p: nat, a: nat, b: nat)
    requires p <= |s|
  {
    || Apart(s, a, b)
    || (Doubled(s, x) && a == |s|)
    || (Broken(s, x, a) && Passes(s, x, a, b) && !PlainData(s + x, p))
  }

  lemma BrokenHolds(s: string, x: string, p: nat, a: Parsed, b: Parsed)
    requires p <= |s| && b == ParseData(s + x, p) && b.token.ptr + b.token.len <= |s + x|
    requires Broken(s, x, a.pos) && IsString(b.token) && b.token.ptr == a.pos && a.pos + b.token.len > |s|
    ensures !PlainData(s + x, p)
  {
    var i :| a.pos <= i < |s| && IsNL(s[i]);
    assert IsNL((s + x)[i]);
  }

  lemma StringInside(s: string, p: nat)
    requires p <= |s|
    ensures var d := ParseData(s, p); IsString(d.token) ==> d.token.ptr + d.token.len <= |s|
  {
    ParseDataIs(s, p);
    FirstInside(0, s, Run(s, p, Blank));
  }

  lemma {:induction false} FirstInside(i: nat, s: string, p: nat)
    requires p <= |s| && i <= 5
    ensures var d := FirstFrom(i, s, p); IsString(d.token) ==> d.token.ptr + d.token.len <= |s|
    decreases 6 - i
  {
    if Try(i, s, p).ret == 0 && i < 5 {
      FirstInside(i + 1, s, Try(i, s, p).pos);
    }
  }

  /** Where the elements part, so do the data that start with them. */
  lemma ElementParts(s: string, x: string, p: nat)
    requires p <= |s| && ParseData(s, p) != ParseData(s + x, p)
    ensures DataParts(s, x, p, AllData(s, p).pos, AllData(s + x, p).pos)
  {
    ParseDataExt(s, x, p);
    var d, d' := ParseData(s, p), ParseData(s + x, p);
    if Apart(s, d.pos, d'.pos) {
      ApartAgain(s, d.pos, d'.pos, AllData(s, p).pos, AllData(s + x, p).pos);
    } else if Broken(s, x, d.pos) && d.token.kind == UNKNOWN {
      StringInside(s + x, p);
      BrokenHolds(s, x, p, d, d');
    }
  }

  lemma {:induction false} AllDataExt(s: string, x: string, p: nat)
    requires p <= |s|
    ensures var a, b := AllData(s, p), AllData(s + x, p); a == b || DataParts(s, x, p, a.pos, b.pos)
    decreases |s| - p
  {
    var d, d' := ParseData(s, p), ParseData(s + x, p);
    if d != d' {
      ElementParts(s, x, p);
    } else if d.pos == |s| {
      ApartAt(s, |s|, AllData(s, p).pos, AllData(s + x, p).pos);
    } else if d.token.kind != UNKNOWN && s[d.pos] == ',' {
      AllDataExt(s, x, d.pos + 1);
      NextParts(s, x, p, d);
    } else {
      assert (s + x)[d.pos] == s[d.pos];
    }
  }

  /** Where the elements behind a common first one part, so do the data that start with it. */
  lemma NextParts(s: string, x: string, p: nat, d: Parsed)
    requires p <= |s| && d == ParseData(s, p) == ParseData(s + x, p) && d.token.kind != UNKNOWN && Sees(s, d.pos, ',')
    requires var a, b := AllData(s, d.pos + 1), AllData(s + x, d.pos + 1);
      a == b || DataParts(s, x, d.pos + 1, a.pos, b.pos)
    ensures var a, b := AllData(s, p), AllData(s + x, p); a == b || DataParts(s, x, p, a.pos, b.pos)
  {
    assert Sees(s + x, d.pos, ',');
    AllDataNext(s, p);
    AllDataNext(s + x, p);
    PlainNext(s + x, p, d);
    var q, a, b := d.pos + 1, AllData(s, d.pos + 1).pos, AllData(s + x, d.pos + 1).pos;
    assert DataParts(s, x, q, a, b) ==> DataParts(s, x, p, a, b);
  }

  lemma PlainNext(s: string, p: nat, d: Parsed)
    requires p <= |s| && d == ParseData(s, p) && Sees(s, d.pos, ',')
    ensures PlainData(s, p) ==> PlainData(s, d.pos + 1)
  {
  }

  /** No string in the data of the first unit holds a newline. */
  ghost predicate PlainUnit(s: string) {
    var h := LexProgramHeader(s, Run(s, 0, Blank)).pos;
    var w := Run(s, h, Blank);
    w > h ==> PlainData(s, w)
  }

  /** A string token begins with a quote. */
  lemma {:induction false} FirstQuoted(i: nat, s: string, p: nat)
    requires p <= |s| && i <= 5
    ensures var d := FirstFrom(i, s, p); IsString(d.token) ==> d.token.ptr < |s| && IsQuote(s[d.token.ptr])
    decreases 6 - i
  {
    if Try(i, s, p).ret == 0 && i < 5 {
      FirstQuoted(i + 1, s, Try(i, s, p).pos);
    }
  }

  /** Data without quotes have no strings. */
  lemma {:induction false} NoQuotesData(s: string, p: nat)
    requires p <= |s| && NoQuotes(s)
    ensures PlainData(s, p)
    decreases |s| - p
  {
    ParseDataIs(s, p);
    FirstQuoted(0, s, Run(s, p, Blank));
    var d := ParseData(s, p);
    if Sees(s, d.pos, ',') {
      NoQuotesData(s, d.pos + 1);
    }
  }

  lemma NoQuotesUnit(s: string)
    requires NoQuotes(s)
    ensures PlainUnit(s)
  {
    var h := LexProgramHeader(s, Run(s, 0, Blank)).pos;
    NoQuotesData(s, Run(s, h, Blank));
  }

  ghost predicate BodyParts(s: string, x: string, a: nat, b: nat) {
    || Apart(s, a, b)
    || (Doubled(s, x) && a == |s|)
    || (Broken(s, x, a) && Passes(s, x, a, b) && !PlainUnit(s + x))
  }

  lemma UnitBodyExt(s: string, x: string)
    ensures var a, b := UnitBody(s), UnitBody(s + x); a == b || BodyParts(s, x, a.3, b.3)
  {
    RunExt(s, x, 0, Blank);
    var w0 := Run(s, 0, Blank);
    ProgramHeaderExt(s, x, w0);
    var h := LexProgramHeader(s, w0).pos;
    RunExt(s, x, h, Blank);
    var w := Run(s, h, Blank);
    var a, b := UnitBody(s).3, UnitBody(s + x).3;
    if NoNL(s, 0) {
      ApartAt(s, 0, a, b);
    } else if NoNL(s, w0) {
      ApartAt(s, w0, a, b);
    } else if NoNL(s, h) {
      ApartAt(s, h, a, b);
    } else {
      AllDataExt(s, x, w);
    }
  }

  /** The unit ends with a carriage return at the end of the buffer and a line feed comes next. */
  ghost predicate CutNewline(s: string, x: string) {
    Sees(x, 0, '\n') && s != "" && s[|s| - 1] == '\r' && ScanUnit(s).termination == NEWLINE &&
      ScanUnit(s).consumed == |s|
  }

  /** The unit was not complete: no newline is left behind where the scans part, and the longer scan passes the end. */
  ghost predicate Incomplete(s: string, u: Unit, v: Unit) {
    && u.termination != NEWLINE && (v.termination == NEWLINE ==> v.consumed > |s|)
    && exists q: nat :: q <= u.consumed && q <= v.consumed && q <= |s| && NoNL(s, q)
  }

  lemma UnitEndExt(s: string, x: string, p: nat)
    requires p <= |s| && UnitBody(s) == UnitBody(s + x) && UnitBody(s).3 == p
    ensures var u, v := ScanUnit(s), ScanUnit(s + x);
      || u == v
      || (CutNewline(s, x) && v == u.(consumed := |s| + 1))
      || Incomplete(s, u, v)
  {
    ScanUnitIs(s);
    ScanUnitIs(s + x);
    var t := s + x;
    var u, v := ScanUnit(s), ScanUnit(t);
    if p == |s| {
      assert NoNL(s, p);
    } else {
      assert t[p] == s[p];
      if s[p] == '\r' && p + 1 == |s| && x != "" {
        assert t[p + 1] == x[0];
      } else if p + 1 < |s| {
        assert t[p + 1] == s[p + 1];
      }
    }
  }

  /** The scan `u` stops at the string that was broken; with it closed the unit passes the end of the buffer. */
  ghost predicate BreaksString(s: string, x: string, u: Unit, v: Unit) {
    && u.consumed > 0 && Broken(s, x, u.consumed - 1) && u.header.kind == INVALID && u.termination == NONE
    && Passes(s, x, u.consumed - 1, v.consumed) && !PlainUnit(s + x) && (v.header.kind == INVALID || v.header.len > 0)
  }

  /** The buffer ends in a quote that belongs to the unit and is doubled by what follows. */
  ghost predicate DoublesQuote(s: string, x: string, u: Unit) {
    Doubled(s, x) && u.termination == NONE && u.consumed == |s|
  }

  /** Scanning the first unit of a buffer with more bytes behind it. */
  lemma UnitExt(s: string, x: string)
    ensures var u, v := ScanUnit(s), ScanUnit(s + x);
      || u == v
      || (CutNewline(s, x) && v == u.(consumed := |s| + 1))
      || Incomplete(s, u, v)
      || DoublesQuote(s, x, u)
      || BreaksString(s, x, u, v)
  {
    UnitBodyExt(s, x);
    var a, b := UnitBody(s), UnitBody(s + x);
    if a == b {
      UnitEndExt(s, x, a.3);
    } else if Apart(s, a.3, b.3) {
      UnitApart(s, x);
    } else if Doubled(s, x) && a.3 == |s| {
      ScanUnitIs(s);
    } else {
      UnitBroken(s, x, a.3);
      DataNeedHeader(s + x);
    }
  }

  lemma UnitBroken(s: string, x: string, p: nat)
    requires p == UnitBody(s).3 && Broken(s, x, p) && Passes(s, x, p, UnitBody(s + x).3)
    ensures var u, v := ScanUnit(s), ScanUnit(s + x);
      u.consumed == p + 1 && u.header.kind == INVALID && u.termination == NONE && Passes(s, x, p, v.consumed)
  {
    ScanUnitIs(s);
    LaterConsumed(s + x);
  }

  lemma {:induction false} RunEnds(s: string, p: nat, k: CharClass)
    requires p <= |s|
    ensures Run(s, Run(s, p, k), k) == Run(s, p, k)
    decreases |s| - p
  {
    if p < |s| && In(s[p], k) {
      RunEnds(s, p + 1, k);
    }
  }

  /** Program data come only behind a header. */
  lemma DataNeedHeader(s: string)
    requires !PlainUnit(s)
    ensures ScanUnit(s).header.kind == INVALID || ScanUnit(s).header.len > 0
  {
    var q := Run(s, 0, Blank);
    RunEnds(s, 0, Blank);
    EmptyHeader(s, q);
    BodyHeader(s);
    UnitHeader(s);
  }

  lemma EmptyHeader(s: string, p: nat)
    requires p <= |s|
    ensures LexProgramHeader(s, p).token.len == 0 ==> LexProgramHeader(s, p).pos == p
  {
  }

  lemma BodyHeader(s: string)
    ensures UnitBody(s).0 == LexProgramHeader(s, Run(s, 0, Blank)).token
  {
  }

  lemma UnitHeader(s: string)
    ensures ScanUnit(s).header == UnitBody(s).0 || ScanUnit(s).header.kind == INVALID
  {
    ScanUnitIs(s);
  }

  lemma LaterConsumed(s: string)
    ensures ScanUnit(s).consumed >= UnitBody(s).3
  {
    ScanUnitIs(s);
  }

  lemma UnitApart(s: string, x: string)
    requires Apart(s, UnitBody(s).3, UnitBody(s + x).3)
    ensures ScanUnit(s) == ScanUnit(s + x) || Incomplete(s, ScanUnit(s), ScanUnit(s + x))
  {
    ScanUnitIs(s);
    ScanUnitIs(s + x);
    var a, b := UnitBody(s), UnitBody(s + x);
    var q: nat :| q <= a.3 && q <= b.3 && q <= |s| && NoNL(s, q);
    var t := s + x;
    assert forall i | q <= i < |s| :: t[i] == s[i];
  }
}
