/** The token recognisers of `lexer.c`. */
module Lexer {
  import opened Base

  datatype CharClass = Blank | Digit | Letter | WordChar | HexDigit | OctDigit | BinDigit | ExpressionChar

  predicate IsAlpha(c: char) {
    'a' <= c <= 'z' || 'A' <= c <= 'Z'
  }

  predicate IsAscii(c: char) {
    c as int <= 0x7f
  }

  /** The character classes, in the C locale. */
  predicate In(c: char, k: CharClass) {
    match k
    case Blank => c == ' ' || c == '\t'
    case Digit => IsDigit(c)
    case Letter => IsAlpha(c)
    case WordChar => IsAlpha(c) || IsDigit(c) || c == '_'
    case HexDigit => IsDigit(c) || 'a' <= c <= 'f' || 'A' <= c <= 'F'
    case OctDigit => '0' <= c <= '7'
    case BinDigit => c == '0' || c == '1'
    case ExpressionChar =>
      ' ' <= c <= '~' && c != '"' && c != '#' && c != '\'' && c != '(' && c != ')' && c != ';'
  }

  /** The end of the run of characters of a class that starts at `p`. */
  function Run(s: string, p: nat, k: CharClass): (q: nat)
    requires p <= |s|
    ensures p <= q <= |s|
    decreases |s| - p
  {
    if p < |s| && In(s[p], k) then Run(s, p + 1, k) else p
  }

  predicate Sees(s: string, p: nat, c: char) {
    p < |s| && s[p] == c
  }

  function SkipChr(s: string, p: nat, c: char): (q: nat)
    requires p <= |s|
    ensures p <= q <= |s| && q <= p + 1
  {
    if Sees(s, p, c) then p + 1 else p
  }

  function SkipSign(s: string, p: nat): (q: nat)
    requires p <= |s|
    ensures p <= q <= |s|
  {
    if Sees(s, p, '+') || Sees(s, p, '-') then p + 1 else p
  }

  function SkipDigit(s: string, p: nat): (q: nat)
    requires p <= |s|
    ensures p <= q <= |s|
  {
    if p < |s| && IsDigit(s[p]) then p + 1 else p
  }

  datatype TokenType =
    | COMMA | SEMICOLON | COLON | SPECIFIC_CHARACTER | NL
    | HEXNUM | OCTNUM | BINNUM
    | PROGRAM_MNEMONIC | DECIMAL_NUMERIC | DECIMAL_NUMERIC_WITH_SUFFIX | SUFFIX
    | ARBITRARY_BLOCK | SINGLE_QUOTE | DOUBLE_QUOTE | PROGRAM_EXPRESSION
    | COMPOUND_HEADER | INCOMPLETE_COMPOUND_HEADER | COMMON_HEADER | INCOMPLETE_COMMON_HEADER
    | COMPOUND_QUERY_HEADER | COMMON_QUERY_HEADER
    | WS | ALL_PROGRAM_DATA | INVALID | UNKNOWN

  /** `scpi_token_t`, with the pointer as an offset into the buffer. */
  datatype Token = Token(kind: TokenType, ptr: nat, len: nat)

  /** A token and the position the lexer is left at. */
  datatype Lexed = Lexed(pos: nat, token: Token)

  function Nothing(p: nat): Lexed {
    Lexed(p, Token(UNKNOWN, p, 0))
  }

  /** A token from `p` to `q`, or none when that is empty. */
  function Span(kind: TokenType, p: nat, q: nat): Lexed
    requires p <= q
  {
    if p < q then Lexed(q, Token(kind, p, q - p)) else Nothing(p)
  }

  function LexWhiteSpace(s: string, p: nat): Lexed
    requires p <= |s|
  {
    Span(WS, p, Run(s, p, Blank))
  }

  /** `skipProgramMnemonic`: a letter and the word characters behind it. */
  function Mnemonic(s: string, p: nat): (q: nat)
    requires p <= |s|
    ensures p <= q <= |s|
  {
    if p < |s| && IsAlpha(s[p]) then Run(s, p + 1, WordChar) else p
  }

  /** The colon-led mnemonics of a compound header: where they end and whether none is missing. */
  function CompoundTail(s: string, p: nat): (r: (nat, bool))
    requires p <= |s|
    ensures p <= r.0 <= |s|
    decreases |s| - p
  {
    if Sees(s, p, ':') then
      var q := Mnemonic(s, p + 1);
      if q == p + 1 then (q, false) else CompoundTail(s, q)
    else (p, true)
  }

  /** A header token from `p`, complete or not, with its query mark. */
  function HeaderToken(s: string, p: nat, q: nat, complete: bool, plain: TokenType, query: TokenType,
        incomplete: TokenType): Lexed
    requires p < q <= |s|
  {
    if !complete then Lexed(q, Token(incomplete, p, q - p))
    else if Sees(s, q, '?') then Lexed(q + 1, Token(query, p, q + 1 - p))
    else Lexed(q, Token(plain, p, q - p))
  }

  function LexProgramHeader(s: string, p: nat): (l: Lexed)
    requires p <= |s|
    ensures p <= l.pos <= |s|
  {
    if Sees(s, p, '*') then
      var q := Mnemonic(s, p + 1);
      HeaderToken(s, p, q, q > p + 1, COMMON_HEADER, COMMON_QUERY_HEADER, INCOMPLETE_COMMON_HEADER)
    else
      var p1 := SkipChr(s, p, ':');
      var q := Mnemonic(s, p1);
      if q > p1 then
        var (r, complete) := CompoundTail(s, q);
        HeaderToken(s, p, r, complete, COMPOUND_HEADER, COMPOUND_QUERY_HEADER, INCOMPLETE_COMPOUND_HEADER)
      else if p1 > p then Lexed(p1, Token(INCOMPLETE_COMPOUND_HEADER, p, p1 - p))
      else Nothing(p)
  }

  function LexCharacterProgramData(s: string, p: nat): Lexed
    requires p <= |s|
  {
    Span(PROGRAM_MNEMONIC, p, Mnemonic(s, p))
  }

  /** `skipMantisa`: its end and how many digits it has. */
  function Mantissa(s: string, p: nat): (r: (nat, nat))
    requires p <= |s|
    ensures p <= r.0 <= |s| && (r.1 > 0 ==> p < r.0)
  {
    var q := SkipSign(s, p);
    var d := Run(s, q, Digit);
    if Sees(s, d, '.') then
      var e := Run(s, d + 1, Digit);
      (e, d - q + (e - (d + 1)))
    else (d, d - q)
  }

  /** `skipExponent` behind optional blanks: the end, or `p` when there is no exponent. */
  function Exponent(s: string, p: nat): (q: nat)
    requires p <= |s|
    ensures p <= q <= |s|
  {
    var w := Run(s, p, Blank);
    if Sees(s, w, 'e') || Sees(s, w, 'E') then
      var d := SkipSign(s, Run(s, w + 1, Blank));
      var e := Run(s, d, Digit);
      if e > d then e else p
    else p
  }

  function Decimal(s: string, p: nat): (q: nat)
    requires p <= |s|
    ensures p <= q <= |s|
  {
    var (m, digits) := Mantissa(s, p);
    if digits > 0 then Exponent(s, m) else p
  }

  function LexDecimalNumericProgramData(s: string, p: nat): Lexed
    requires p <= |s|
  {
    Span(DECIMAL_NUMERIC, p, Decimal(s, p))
  }

  /** Letters, a minus and a digit, each optional. */
  function SuffixUnit(s: string, p: nat): (q: nat)
    requires p <= |s|
    ensures p <= q <= |s|
  {
    SkipDigit(s, SkipChr(s, Run(s, p, Letter), '-'))
  }

  function SuffixTail(s: string, p: nat): (q: nat)
    requires p <= |s|
    ensures p <= q <= |s|
    decreases |s| - p
  {
    if Sees(s, p, '/') || Sees(s, p, '.') then SuffixTail(s, SuffixUnit(s, p + 1)) else p
  }

  function Suffix(s: string, p: nat): (q: nat)
    requires p <= |s|
    ensures p <= q <= |s|
  {
    var a := SkipChr(s, p, '/');
    if Run(s, a, Letter) > a then SuffixTail(s, SuffixUnit(s, a)) else a
  }

  function LexSuffixProgramData(s: string, p: nat): Lexed
    requires p <= |s|
  {
    Span(SUFFIX, p, Suffix(s, p))
  }

  /** The digits behind `#H`, `#Q` or `#B`; the prefix is not part of the token. */
  function LexNondecimalNumericData(s: string, p: nat): (l: Lexed)
    requires p <= |s|
    ensures p <= l.pos <= |s| && (l.token.len == 0 ==> l == Nothing(p))
  {
    if Sees(s, p, '#') then
      if Sees(s, p + 1, 'h') || Sees(s, p + 1, 'H') then Based(s, p, HEXNUM, HexDigit)
      else if Sees(s, p + 1, 'q') || Sees(s, p + 1, 'Q') then Based(s, p, OCTNUM, OctDigit)
      else if Sees(s, p + 1, 'b') || Sees(s, p + 1, 'B') then Based(s, p, BINNUM, BinDigit)
      else Nothing(p)
    else Nothing(p)
  }

  function Based(s: string, p: nat, kind: TokenType, k: CharClass): (l: Lexed)
    requires p + 2 <= |s|
    ensures p <= l.pos <= |s|
  {
    var q := Run(s, p + 2, k);
    if q > p + 2 then Lexed(q, Token(kind, p + 2, q - (p + 2))) else Nothing(p)
  }

  /** `skipQuoteProgramData`: stops at a quote that is not doubled, at a character that is not ASCII, or at the end. */
  function QuoteEnd(s: string, p: nat, quote: char): (q: nat)
    requires p <= |s|
    ensures p <= q <= |s|
    decreases |s| - p
  {
    if p == |s| then p
    else if s[p] == quote then
      if Sees(s, p + 1, quote) then QuoteEnd(s, p + 2, quote) else p
    else if IsAscii(s[p]) then QuoteEnd(s, p + 1, quote)
    else p
  }

  function Quoted(s: string, p: nat, quote: char, kind: TokenType): (l: Lexed)
    requires p < |s|
    ensures p <= l.pos <= |s|
  {
    var q := QuoteEnd(s, p + 1, quote);
    if Sees(s, q, quote) then Lexed(q + 1, Token(kind, p, q + 1 - p)) else Nothing(p)
  }

  function LexStringProgramData(s: string, p: nat): (l: Lexed)
    requires p <= |s|
    ensures p <= l.pos <= |s| && (l.token.len == 0 ==> l == Nothing(p))
  {
    if Sees(s, p, '"') then Quoted(s, p, '"', DOUBLE_QUOTE)
    else if Sees(s, p, '\'') then Quoted(s, p, '\'', SINGLE_QUOTE)
    else Nothing(p)
  }

  /** Up to `n` digits of a block length: the end, how many are missing, and the value so far. */
  function LengthDigits(s: string, p: nat, n: nat, value: nat): (r: (nat, nat, nat))
    requires p <= |s|
    ensures p <= r.0 <= |s| && r.1 <= n && r.0 - p == n - r.1
    decreases n
  {
    if n > 0 && p < |s| && IsDigit(s[p]) then
      LengthDigits(s, p + 1, n - 1, value * 10 + (s[p] as int - '0' as int))
    else (p, n, value)
  }

  /**
   `#`, the number of length digits, the length and that many bytes. A block that the buffer cuts off takes all of it.
   */
  function LexArbitraryBlockProgramData(s: string, p: nat): (l: Lexed)
    requires p <= |s|
    ensures p <= l.pos <= |s|
    ensures if l.token.kind == ARBITRARY_BLOCK then l.token.ptr > p && l.pos == l.token.ptr + l.token.len
      else l.token == Token(UNKNOWN, p, 0)
  {
    if !Sees(s, p, '#') then Nothing(p)
    else if p + 1 < |s| && IsDigit(s[p + 1]) && s[p + 1] != '0' then
      var (q, missing, n) := LengthDigits(s, p + 2, s[p + 1] as int - '0' as int, 0);
      if missing == 0 then
        if q + n <= |s| then Lexed(q + n, Token(ARBITRARY_BLOCK, q, n)) else Lexed(|s|, Token(UNKNOWN, p, 0))
      else if q == |s| then Lexed(|s|, Token(UNKNOWN, p, 0))
      else Nothing(p)
    else if p + 1 == |s| then Lexed(|s|, Token(UNKNOWN, p, 0))
    else Nothing(p)
  }

  function LexProgramExpression(s: string, p: nat): (l: Lexed)
    requires p <= |s|
    ensures p <= l.pos <= |s|
  {
    if Sees(s, p, '(') then
      var q := Run(s, p + 1, ExpressionChar);
      if Sees(s, q, ')') then Lexed(q + 1, Token(PROGRAM_EXPRESSION, p, q + 1 - p)) else Nothing(p)
    else Nothing(p)
  }

  function LexChar(s: string, p: nat, c: char, kind: TokenType): (l: Lexed)
    requires p <= |s|
    ensures p <= l.pos <= |s|
  {
    Span(kind, p, SkipChr(s, p, c))
  }

  function LexNewLine(s: string, p: nat): (l: Lexed)
    requires p <= |s|
    ensures p <= l.pos <= |s|
  {
    Span(NL, p, SkipChr(s, SkipChr(s, p, '\r'), '\n'))
  }

  /** `lex_state_t`: the buffer cut to its length, and the position in it. */
  class LexState {
    const buffer: string
    var pos: nat

    predicate InRange()
      reads this
    {
      pos <= |buffer|
    }

    constructor (buffer: string, pos: nat)
      requires pos <= |buffer|
      ensures InRange() && this.buffer == buffer && this.pos == pos
    {
      this.buffer, this.pos := buffer, pos;
    }

    predicate IsEos()
      reads this
    {
      |buffer| <= pos
    }

    predicate IsChr(c: char)
      requires !IsEos()
      reads this
    {
      buffer[pos] == c
    }

    /**
     The loops `skipWs`, `skipNumbers`, `skipAlpha`, `skipHexNum`, `skipOctNum`, `skipBinNum`,
     `skipProgramExpression`.
     */
    method SkipRun(k: CharClass) returns (n: nat)
      requires InRange()
      modifies this
      ensures InRange() && pos == Run(buffer, old(pos), k) && n == pos - old(pos)
    {
      n := 0;
      while !IsEos() && In(buffer[pos], k)
        invariant InRange() && n == pos - old(pos)
        invariant Run(buffer, pos, k) == Run(buffer, old(pos), k)
        decreases |buffer| - pos
      {
        pos := pos + 1;
        n := n + 1;
      }
    }

    method SkipOne(c: char) returns (ok: bool)
      requires InRange()
      modifies this
      ensures InRange() && pos == SkipChr(buffer, old(pos), c) && (ok <==> pos > old(pos))
    {
      ok := !IsEos() && IsChr(c);
      if ok {
        pos := pos + 1;
      }
    }

    /** `skipPlusmn`. */
    method SkipPlusMinus()
      requires InRange()
      modifies this
      ensures InRange() && pos == SkipSign(buffer, old(pos))
    {
      if !IsEos() && (IsChr('+') || IsChr('-')) {
        pos := pos + 1;
      }
    }

    method SkipOneDigit()
      requires InRange()
      modifies this
      ensures InRange() && pos == SkipDigit(buffer, old(pos))
    {
      if !IsEos() && IsDigit(buffer[pos]) {
        pos := pos + 1;
      }
    }

    /** `skipProgramMnemonic`: the length, negative when the mnemonic ends the buffer. */
    method SkipProgramMnemonic() returns (n: int)
      requires InRange()
      modifies this
      ensures InRange() && pos == Mnemonic(buffer, old(pos))
      ensures n == if pos == |buffer| then -(pos - old(pos)) else pos - old(pos)
    {
      var start := pos;
      if !IsEos() && IsAlpha(buffer[pos]) {
        pos := pos + 1;
        var rest := SkipRun(WordChar);
      }
      n := pos - start;
      if IsEos() {
        n := -n;
      }
    }

    /** `skipCommonProgramHeader`: 1 for a header, -1 for an incomplete one, 0 for none. */
    method SkipCommonProgramHeader() returns (r: int)
      requires InRange()
      modifies this
      ensures InRange()
      ensures if Sees(buffer, old(pos), '*') then
          pos == Mnemonic(buffer, old(pos) + 1) && r == if pos > old(pos) + 1 then 1 else -1
        else pos == old(pos) && r == 0
    {
      r := 0;
      var star := SkipOne('*');
      if star {
        var res := SkipProgramMnemonic();
        if res == 0 && IsEos() {
          r := -1;
        } else if res <= -1 {
          r := 1;
        } else if res >= 1 {
          r := 1;
        } else {
          r := -1;
        }
      }
    }

    /** `skipCompoundProgramHeader`. */
    method SkipCompoundProgramHeader() returns (r: int)
      requires InRange()
      modifies this
      ensures InRange()
      ensures var p1 := SkipChr(buffer, old(pos), ':'); var q := Mnemonic(buffer, p1);
        if q > p1 then (pos, r == 1) == CompoundTail(buffer, q) && (r == 1 || r == -1)
        else pos == p1 && r == if p1 > old(pos) then -1 else 0
    {
      var firstColon := SkipOne(':');
      var res := SkipProgramMnemonic();
      if res >= 1 {
        ghost var q := pos;
        var more := SkipOne(':');
        while more
          invariant InRange()
          invariant if more then pos > 0 && CompoundTail(buffer, pos - 1) == CompoundTail(buffer, q) &&
            Sees(buffer, pos - 1, ':')
            else (pos, true) == CompoundTail(buffer, q)
          decreases more, |buffer| - pos
        {
          res := SkipProgramMnemonic();
          if res <= -1 {
            return 1;
          } else if res == 0 {
            return -1;
          }
          more := SkipOne(':');
        }
        return 1;
      } else if res <= -1 {
        return 1;
      } else if firstColon {
        return -1;
      } else {
        return 0;
      }
    }

    /** `scpiLex_ProgramHeader`. */
    method ProgramHeader() returns (token: Token)
      requires InRange()
      modifies this
      ensures InRange() && Lexed(pos, token) == LexProgramHeader(buffer, old(pos))
    {
      var ptr := pos;
      var kind := UNKNOWN;
      var res := SkipCommonProgramHeader();
      if res >= 1 {
        kind := QueryOrNot(COMMON_QUERY_HEADER, COMMON_HEADER);
      } else if res <= -1 {
        kind := INCOMPLETE_COMMON_HEADER;
      } else {
        res := SkipCompoundProgramHeader();
        if res >= 1 {
          kind := QueryOrNot(COMPOUND_QUERY_HEADER, COMPOUND_HEADER);
        } else if res <= -1 {
          kind := INCOMPLETE_COMPOUND_HEADER;
        }
      }
      if kind != UNKNOWN {
        token := Token(kind, ptr, pos - ptr);
      } else {
        pos := ptr;
        token := Token(kind, ptr, 0);
      }
    }

    /** Takes a query mark if there is one. */
    method QueryOrNot(query: TokenType, plain: TokenType) returns (kind: TokenType)
      requires InRange()
      modifies this
      ensures InRange() && pos == SkipChr(buffer, old(pos), '?') && kind == if pos > old(pos) then query else plain
    {
      var mark := SkipOne('?');
      kind := if mark then query else plain;
    }

    /** The end of most recognisers: a token of what has been passed since `ptr`, or none. */
    method Passed(kind: TokenType, ptr: nat) returns (token: Token)
      requires InRange() && ptr <= pos
      ensures Lexed(pos, token) == Span(kind, ptr, pos)
    {
      token := Token(if pos > ptr then kind else UNKNOWN, ptr, pos - ptr);
    }

    /** `scpiLex_WhiteSpace`. */
    method WhiteSpace() returns (token: Token)
      requires InRange()
      modifies this
      ensures InRange() && Lexed(pos, token) == LexWhiteSpace(buffer, old(pos))
    {
      var ptr := pos;
      var n := SkipRun(Blank);
      token := Passed(WS, ptr);
    }

    /** `scpiLex_CharacterProgramData`. */
    method CharacterProgramData() returns (token: Token)
      requires InRange()
      modifies this
      ensures InRange() && Lexed(pos, token) == LexCharacterProgramData(buffer, old(pos))
    {
      var ptr := pos;
      if !IsEos() && IsAlpha(buffer[pos]) {
        pos := pos + 1;
        var n := SkipRun(WordChar);
      }
      token := Passed(PROGRAM_MNEMONIC, ptr);
    }

    /** `skipMantisa`. */
    method SkipMantissa() returns (digits: nat)
      requires InRange()
      modifies this
      ensures InRange() && (pos, digits) == Mantissa(buffer, old(pos))
    {
      SkipPlusMinus();
      digits := SkipRun(Digit);
      var dot := SkipOne('.');
      if dot {
        var more := SkipRun(Digit);
        digits := digits + more;
      }
    }

    /** `skipExponent`: how many digits it has. */
    method SkipExponent() returns (digits: nat)
      requires InRange()
      modifies this
      ensures InRange()
      ensures if Sees(buffer, old(pos), 'e') || Sees(buffer, old(pos), 'E') then
          var d := SkipSign(buffer, Run(buffer, old(pos) + 1, Blank));
          pos == Run(buffer, d, Digit) && digits == pos - d
        else digits == 0
    {
      digits := 0;
      if !IsEos() && (IsChr('e') || IsChr('E')) {
        pos := pos + 1;
        var n := SkipRun(Blank);
        SkipPlusMinus();
        digits := SkipRun(Digit);
      }
    }

    /** `scpiLex_DecimalNumericProgramData`: an exponent without digits is given back. */
    method DecimalNumericProgramData() returns (token: Token)
      requires InRange()
      modifies this
      ensures InRange() && Lexed(pos, token) == LexDecimalNumericProgramData(buffer, old(pos))
    {
      var ptr := pos;
      var digits := SkipMantissa();
      if digits > 0 {
        var rollback := pos;
        var n := SkipRun(Blank);
        digits := SkipExponent();
        if digits == 0 {
          pos := rollback;
        }
      } else {
        pos := ptr;
      }
      token := Passed(DECIMAL_NUMERIC, ptr);
    }

    /** `scpiLex_SuffixProgramData`; a lone slash counts as a suffix. */
    method SuffixProgramData() returns (token: Token)
      requires InRange()
      modifies this
      ensures InRange() && Lexed(pos, token) == LexSuffixProgramData(buffer, old(pos))
    {
      var ptr := pos;
      var slash := SkipOne('/');
      ghost var a := pos;
      var letters := SkipRun(Letter);
      if letters > 0 {
        var minus := SkipOne('-');
        SkipOneDigit();
        ghost var u := pos;
        while !IsEos() && (IsChr('/') || IsChr('.'))
          invariant InRange() && u <= pos
          invariant SuffixTail(buffer, pos) == SuffixTail(buffer, u)
          decreases |buffer| - pos
        {
          pos := pos + 1;
          letters := SkipRun(Letter);
          minus := SkipOne('-');
          SkipOneDigit();
        }
      }
      token := Passed(SUFFIX, ptr);
    }

    /** `scpiLex_NondecimalNumericData`. */
    method NondecimalNumericData() returns (token: Token)
      requires InRange()
      modifies this
      ensures InRange() && Lexed(pos, token) == LexNondecimalNumericData(buffer, old(pos))
    {
      var ptr := pos;
      var digits: nat, kind := 0, UNKNOWN;
      var hash := SkipOne('#');
      if hash && !IsEos() {
        if IsChr('h') || IsChr('H') {
          pos := pos + 1;
          digits := SkipRun(HexDigit);
          kind := HEXNUM;
        } else if IsChr('q') || IsChr('Q') {
          pos := pos + 1;
          digits := SkipRun(OctDigit);
          kind := OCTNUM;
        } else if IsChr('b') || IsChr('B') {
          pos := pos + 1;
          digits := SkipRun(BinDigit);
          kind := BINNUM;
        }
      }
      if digits > 0 {
        ptr := ptr + 2;
        token := Token(kind, ptr, pos - ptr);
      } else {
        pos := ptr;
        token := Token(UNKNOWN, ptr, 0);
      }
    }

    /** `skipQuoteProgramData`. */
    method SkipQuoteProgramData(quote: char)
      requires InRange()
      modifies this
      ensures InRange() && pos == QuoteEnd(buffer, old(pos), quote)
    {
      while !IsEos()
        invariant InRange() && QuoteEnd(buffer, pos, quote) == QuoteEnd(buffer, old(pos), quote)
        decreases |buffer| - pos
      {
        if IsAscii(buffer[pos]) && !IsChr(quote) {
          pos := pos + 1;
        } else if IsChr(quote) {
          pos := pos + 1;
          if !IsEos() && IsChr(quote) {
            pos := pos + 1;
          } else {
            pos := pos - 1;
            break;
          }
        } else {
          break;
        }
      }
    }

    /** One branch of `scpiLex_StringProgramData`. */
    method QuotedData(quote: char, kind: TokenType) returns (token: Token)
      requires InRange() && Sees(buffer, pos, quote)
      modifies this
      ensures InRange() && Lexed(pos, token) == Quoted(buffer, old(pos), quote, kind)
    {
      var ptr := pos;
      pos := pos + 1;
      SkipQuoteProgramData(quote);
      if !IsEos() && IsChr(quote) {
        pos := pos + 1;
        token := Token(kind, ptr, pos - ptr);
      } else {
        pos := ptr;
        token := Token(UNKNOWN, ptr, 0);
      }
    }

    /** `scpiLex_StringProgramData`. */
    method StringProgramData() returns (token: Token)
      requires InRange()
      modifies this
      ensures InRange() && Lexed(pos, token) == LexStringProgramData(buffer, old(pos))
    {
      token := Token(UNKNOWN, pos, 0);
      if !IsEos() {
        if IsChr('"') {
          token := QuotedData('"', DOUBLE_QUOTE);
        } else if IsChr('\'') {
          token := QuotedData('\'', SINGLE_QUOTE);
        }
      }
    }

    /** The loop over the length digits of a block: how many are missing, and the length. */
    method SkipLengthDigits(n: nat) returns (missing: nat, value: nat)
      requires InRange()
      modifies this
      ensures InRange() && (pos, missing, value) == LengthDigits(buffer, old(pos), n, 0)
    {
      missing, value := n, 0;
      while missing > 0
        invariant InRange()
        invariant LengthDigits(buffer, pos, missing, value) == LengthDigits(buffer, old(pos), n, 0)
      {
        if !IsEos() && IsDigit(buffer[pos]) {
          value := value * 10;
          value := value + (buffer[pos] as int - '0' as int);
          pos := pos + 1;
          missing := missing - 1;
        } else {
          break;
        }
      }
    }

    /** `scpiLex_ArbitraryBlockProgramData`. */
    method ArbitraryBlockProgramData() returns (token: Token)
      requires InRange()
      modifies this
      ensures InRange() && Lexed(pos, token) == LexArbitraryBlockProgramData(buffer, old(pos))
    {
      var ptr := pos;
      var length, validData := 0, -1;
      token := Token(UNKNOWN, ptr, 0);
      var hash := SkipOne('#');
      if hash {
        if !IsEos() && IsDigit(buffer[pos]) && buffer[pos] != '0' {
          var i := buffer[pos] as int - '0' as int;
          pos := pos + 1;
          i, length := SkipLengthDigits(i);
          if i == 0 {
            pos := pos + length;
            if |buffer| >= pos {
              token := Token(ARBITRARY_BLOCK, pos - length, length);
              validData := 1;
            } else {
              validData := 0;
            }
          } else if IsEos() {
            validData := 0;
          }
        } else if IsEos() {
          validData := 0;
        }
      }
      if validData == 0 {
        pos := |buffer|;
      } else if validData == -1 {
        pos := ptr;
      }
    }

    /** `scpiLex_ProgramExpression`, called as `parseProgramData` does with a token of length zero. */
    method ProgramExpression() returns (token: Token)
      requires InRange()
      modifies this
      ensures InRange() && Lexed(pos, token) == LexProgramExpression(buffer, old(pos))
    {
      var ptr := pos;
      var len := 0;
      if !IsEos() && IsChr('(') {
        pos := pos + 1;
        var n := SkipRun(ExpressionChar);
        if !IsEos() && IsChr(')') {
          pos := pos + 1;
          len := pos - ptr;
        } else {
          len := 0;
        }
      }
      if len > 0 {
        token := Token(PROGRAM_EXPRESSION, ptr, len);
      } else {
        pos := ptr;
        token := Token(UNKNOWN, ptr, 0);
      }
    }

    /** `scpiLex_Comma`, `scpiLex_Semicolon`, `scpiLex_Colon`, `scpiLex_SpecificCharacter`. */
    method Character(c: char, kind: TokenType) returns (token: Token)
      requires InRange()
      modifies this
      ensures InRange() && Lexed(pos, token) == LexChar(buffer, old(pos), c, kind)
    {
      var ptr := pos;
      var ok := SkipOne(c);
      token := Passed(kind, ptr);
    }

    /** `scpiLex_NewLine`. */
    method NewLine() returns (token: Token)
      requires InRange()
      modifies this
      ensures InRange() && Lexed(pos, token) == LexNewLine(buffer, old(pos))
    {
      var ptr := pos;
      var cr := SkipOne('\r');
      var lf := SkipOne('\n');
      token := Passed(NL, ptr);
    }
  }
}
