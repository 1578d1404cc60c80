/** Lexing a buffer that is cut behind a token: `s` is what remains of `s + x`. */
module Cutting {
  import opened Base
  import opened Lexer
  import opened Scanner

  lemma {:induction false} RunCut(s: string, x: string, p: nat, k: CharClass)
    requires p <= |s|
    ensures Run(s, p, k) == Min(Run(s + x, p, k), |s|)
    decreases |s| - p
  {
    if p < |s| && In(s[p], k) {
      RunCut(s, x, p + 1, k);
    }
  }

  lemma MnemonicCut(s: string, x: string, p: nat)
    requires p <= |s|
    ensures Mnemonic(s, p) == Min(Mnemonic(s + x, p), |s|)
  {
    if p < |s| {
      RunCut(s, x, p + 1, WordChar);
    }
  }

  lemma SkipCut(s: string, x: string, p: nat, c: char)
    requires p <= |s|
    ensures SkipChr(s, p, c) == Min(SkipChr(s + x, p, c), |s|)
    ensures SkipSign(s, p) == Min(SkipSign(s + x, p), |s|)
    ensures SkipDigit(s, p) == Min(SkipDigit(s + x, p), |s|)
  {
  }

  lemma MantissaCut(s: string, x: string, p: nat)
    requires p <= |s|
    ensures Mantissa(s, p).1 <= Mantissa(s + x, p).1
    ensures Mantissa(s + x, p).0 <= |s| ==> Mantissa(s, p) == Mantissa(s + x, p)
  {
    var t := s + x;
    SkipCut(s, x, p, '+');
    var q := SkipSign(s, p);
    if SkipSign(t, p) == q {
      RunCut(s, x, q, Digit);
      var d := Run(s, q, Digit);
      if d < |s| {
        RunCut(s, x, d + 1, Digit);
      }
    }
  }

  lemma ExponentCut(s: string, x: string, p: nat)
    requires p <= |s| && Exponent(s + x, p) <= |s|
    ensures Exponent(s, p) == Exponent(s + x, p)
  {
    var t := s + x;
    RunCut(s, x, p, Blank);
    var w := Run(t, p, Blank);
    if w < |s| && (s[w] == 'e' || s[w] == 'E') {
      RunCut(s, x, w + 1, Blank);
      var b := Run(t, w + 1, Blank);
      if b <= |s| {
        SkipCut(s, x, b, '+');
        if SkipSign(t, b) <= |s| {
          RunCut(s, x, SkipSign(t, b), Digit);
        }
      }
    }
  }

  lemma DecimalCut(s: string, x: string, p: nat)
    requires p <= |s| && Decimal(s + x, p) <= |s|
    ensures Decimal(s, p) == Decimal(s + x, p)
  {
    MantissaCut(s, x, p);
    var m := Mantissa(s + x, p).0;
    if Mantissa(s + x, p).1 > 0 {
      ExponentCut(s, x, m);
    }
  }

  lemma SuffixUnitCut(s: string, x: string, p: nat)
    requires p <= |s|
    ensures SuffixUnit(s, p) == Min(SuffixUnit(s + x, p), |s|)
  {
    var t := s + x;
    RunCut(s, x, p, Letter);
    var a := Run(t, p, Letter);
    if a <= |s| {
      SkipCut(s, x, a, '-');
      var b := SkipChr(t, a, '-');
      if b <= |s| {
        SkipCut(s, x, b, '-');
      }
    }
  }

  lemma {:induction false} SuffixTailCut(s: string, x: string, p: nat)
    requires p <= |s|
    ensures SuffixTail(s, p) == Min(SuffixTail(s + x, p), |s|)
    decreases |s| - p
  {
    var t := s + x;
    if p < |s| && (s[p] == '/' || s[p] == '.') {
      SuffixUnitCut(s, x, p + 1);
      var q := SuffixUnit(t, p + 1);
      if q <= |s| {
        SuffixTailCut(s, x, q);
      }
    }
  }

  lemma SuffixCut(s: string, x: string, p: nat)
    requires p <= |s|
    ensures Suffix(s, p) == Min(Suffix(s + x, p), |s|)
  {
    var t := s + x;
    SkipCut(s, x, p, '/');
    var a := SkipChr(t, p, '/');
    if a <= |s| {
      RunCut(s, x, a, Letter);
      SuffixUnitCut(s, x, a);
      if SuffixUnit(t, a) <= |s| {
        SuffixTailCut(s, x, SuffixUnit(t, a));
      }
    }
  }

  /** A token that lies within the cut buffer is read there too; blanks behind it may be cut. */
  predicate Kept(s: string, a: Parsed, b: Parsed) {
    a.token == b.token && a.ret == b.ret && a.pos == Min(b.pos, |s|)
  }

  lemma DecimalDataCut(s: string, x: string, p: nat, d: nat)
    requires p < d <= |s| && End(DecimalData(s + x, p, d)) <= |s|
    ensures Kept(s, DecimalData(s, p, d), DecimalData(s + x, p, d))
  {
    RunCut(s, x, d, Blank);
    var w := Run(s + x, d, Blank);
    if w <= |s| {
      SuffixCut(s, x, w);
    }
  }

  lemma BasedCut(s: string, x: string, p: nat, kind: TokenType, k: CharClass)
    requires p + 2 <= |s|
    ensures Based(s + x, p, kind, k).pos <= |s| ==> Based(s, p, kind, k) == Based(s + x, p, kind, k)
  {
    RunCut(s, x, p + 2, k);
  }

  lemma NondecimalCut(s: string, x: string, p: nat)
    requires p <= |s| && LexNondecimalNumericData(s + x, p).pos <= |s|
    ensures LexNondecimalNumericData(s, p) == LexNondecimalNumericData(s + x, p)
  {
    if p + 2 <= |s| && s[p] == '#' {
      var c := s[p + 1];
      assert (s + x)[p + 1] == c;
      if c == 'h' || c == 'H' {
        BasedCut(s, x, p, HEXNUM, HexDigit);
      } else if c == 'q' || c == 'Q' {
        BasedCut(s, x, p, OCTNUM, OctDigit);
      } else if c == 'b' || c == 'B' {
        BasedCut(s, x, p, BINNUM, BinDigit);
      }
    }
  }

  lemma {:induction false} QuoteEndCut(s: string, x: string, p: nat, quote: char)
    requires p <= |s| && QuoteEnd(s + x, p, quote) < |s|
    ensures QuoteEnd(s, p, quote) == QuoteEnd(s + x, p, quote)
    decreases |s| - p
  {
    var t := s + x;
    if p < |s| {
      if s[p] == quote {
        if p + 1 < |s| && s[p + 1] == quote {
          QuoteEndCut(s, x, p + 2, quote);
        }
      } else if IsAscii(s[p]) {
        QuoteEndCut(s, x, p + 1, quote);
      }
    }
  }

  lemma StringCut(s: string, x: string, p: nat)
    requires p <= |s| && LexStringProgramData(s + x, p).token.len > 0 && LexStringProgramData(s + x, p).pos <= |s|
    ensures LexStringProgramData(s, p) == LexStringProgramData(s + x, p)
  {
    var quote := (s + x)[p];
    QuoteEndCut(s, x, p + 1, quote);
  }

  lemma {:induction false} LengthDigitsCut(s: string, x: string, p: nat, n: nat, v: nat)
    requires p <= |s| && LengthDigits(s + x, p, n, v).0 <= |s| && LengthDigits(s + x, p, n, v).1 == 0
    ensures LengthDigits(s, p, n, v) == LengthDigits(s + x, p, n, v)
    decreases n
  {
    if n > 0 {
      LengthDigitsCut(s, x, p + 1, n - 1, v * 10 + ((s + x)[p] as int - '0' as int));
    }
  }

  lemma BlockCut(s: string, x: string, p: nat)
    requires p <= |s|
    requires var l := LexArbitraryBlockProgramData(s + x, p); l.token.kind == ARBITRARY_BLOCK && l.pos <= |s|
    ensures LexArbitraryBlockProgramData(s, p) == LexArbitraryBlockProgramData(s + x, p)
  {
    LengthDigitsCut(s, x, p + 2, (s + x)[p + 1] as int - '0' as int, 0);
  }

  lemma ExpressionCut(s: string, x: string, p: nat)
    requires p <= |s|
    requires var l := LexProgramExpression(s + x, p); l.token.len > 0 && l.pos <= |s|
    ensures LexProgramExpression(s, p) == LexProgramExpression(s + x, p)
  {
    RunCut(s, x, p + 1, ExpressionChar);
  }

  /** A recogniser that succeeds within the cut buffer succeeds there. */
  lemma TryCut(i: nat, s: string, x: string, p: nat)
    requires p <= |s| && i <= 5
    requires var b := Try(i, s + x, p); b.ret > 0 && b.token.kind != UNKNOWN && End(b) <= |s|
    ensures Kept(s, Try(i, s, p), Try(i, s + x, p))
  {
    if i == 0 {
      NondecimalCut(s, x, p);
    } else if i == 1 {
      MnemonicCut(s, x, p);
    } else if i == 2 {
      DecimalTryCut(s, x, p);
    } else if i == 3 {
      StringCut(s, x, p);
    } else if i == 4 {
      BlockCut(s, x, p);
    } else {
      ExpressionCut(s, x, p);
    }
  }

  lemma DecimalTryCut(s: string, x: string, p: nat)
    requires p <= |s|
    requires var b := Try(2, s + x, p); b.ret > 0 && End(b) <= |s|
    ensures Kept(s, Try(2, s, p), Try(2, s + x, p))
  {
    var d := Decimal(s + x, p);
    assert d <= End(DecimalData(s + x, p, d));
    DecimalCut(s, x, p);
    DecimalDataCut(s, x, p, d);
  }

  /** Where a later recogniser succeeds, those before it fail in the cut buffer too. */
  lemma FailCut(i: nat, s: string, x: string, p: nat)
    requires p <= |s| && i < 5 && Try(i, s + x, p).ret == 0
    requires var r := Try(i, s + x, p); var b := FirstFrom(i + 1, s + x, r.pos);
      b.token.kind != UNKNOWN && End(b) <= |s|
    ensures Try(i, s + x, p).pos == p
    ensures Try(i, s, p).ret == 0 && Try(i, s, p).pos == p
  {
    if i == 0 {
      NondecimalCut(s, x, p);
    } else if i == 1 {
      MnemonicCut(s, x, p);
    } else if i == 2 {
      DecimalCut(s, x, p);
    } else if i == 3 {
      FailCutString(s, x, p);
    } else {
      FailCutBlock(s, x, p);
    }
  }

  lemma FailCutString(s: string, x: string, p: nat)
    requires p <= |s| && Try(3, s + x, p).ret == 0
    requires var b := FirstFrom(4, s + x, Try(3, s + x, p).pos); b.token.kind != UNKNOWN && End(b) <= |s|
    ensures Try(3, s + x, p).pos == p
    ensures Try(3, s, p).ret == 0 && Try(3, s, p).pos == p
  {
    AfterString(s + x, p);
    LaterBegins(4, s + x, p);
  }

  lemma FailCutBlock(s: string, x: string, p: nat)
    requires p <= |s| && Try(4, s + x, p).ret == 0
    requires var b := FirstFrom(5, s + x, Try(4, s + x, p).pos); b.token.kind != UNKNOWN && End(b) <= |s|
    ensures Try(4, s + x, p).pos == p
    ensures Try(4, s, p).ret == 0 && Try(4, s, p).pos == p
  {
    AfterBlock(s + x, p);
  }

  /** A quote begins no block and no expression. */
  lemma AfterString(t: string, p: nat)
    requires p <= |t| && Try(3, t, p).ret == 0
    ensures Try(3, t, p).pos == p
    ensures FirstFrom(4, t, p).token.kind != UNKNOWN ==> p < |t| && (t[p] == '#' || t[p] == '(')
  {
  }

  lemma LaterBegins(i: nat, t: string, p: nat)
    requires p <= |t| && 4 <= i <= 5 && FirstFrom(i, t, p).token.kind != UNKNOWN
    ensures FirstFrom(i, t, p).token.ptr >= p && End(FirstFrom(i, t, p)) > p
  {
  }

  lemma AfterBlock(t: string, p: nat)
    requires p <= |t| && Try(4, t, p).ret == 0 && FirstFrom(5, t, Try(4, t, p).pos).token.kind != UNKNOWN
    ensures Try(4, t, p).pos == p && p < |t| && t[p] == '('
    ensures End(FirstFrom(5, t, p)) > p
  {
    var q := Try(4, t, p).pos;
    BlockStops(t, p);
    ExpressionBegins(t, q);
  }

  lemma BlockStops(t: string, p: nat)
    requires p <= |t| && Try(4, t, p).ret == 0
    ensures Try(4, t, p).pos == p || Try(4, t, p).pos == |t|
  {
  }

  lemma ExpressionBegins(t: string, q: nat)
    requires q <= |t| && FirstFrom(5, t, q).token.kind != UNKNOWN
    ensures q < |t| && t[q] == '(' && End(FirstFrom(5, t, q)) > q
  {
  }

  lemma {:induction false} FirstCut(i: nat, s: string, x: string, p: nat)
    requires p <= |s| && i <= 5
    requires var b := FirstFrom(i, s + x, p); b.token.kind != UNKNOWN && End(b) <= |s|
    ensures Kept(s, FirstFrom(i, s, p), FirstFrom(i, s + x, p))
    decreases 6 - i
  {
    if Try(i, s + x, p).ret > 0 {
      TryCut(i, s, x, p);
    } else if i < 5 {
      FailCut(i, s, x, p);
      FirstCut(i + 1, s, x, p);
    }
  }

  /** An element whose token lies within the cut buffer is read from it as from the whole. */
  lemma ParseDataCut(s: string, x: string, p: nat)
    requires p <= |s|
    requires var b := ParseData(s + x, p); b.token.kind != UNKNOWN && End(b) <= |s|
    ensures var a, b := ParseData(s, p), ParseData(s + x, p); a.token == b.token && a.pos == Min(b.pos, |s|)
  {
    ParseDataIs(s, p);
    ParseDataIs(s + x, p);
    var t := s + x;
    var w := Run(t, p, Blank);
    RunCut(s, x, p, Blank);
    FirstBegins(0, t, w);
    FirstCut(0, s, x, w);
    var d := FirstFrom(0, t, w);
    if d.pos <= |s| {
      RunCut(s, x, d.pos, Blank);
    }
  }

  lemma {:induction false} FirstBegins(i: nat, t: string, p: nat)
    requires p <= |t| && i <= 5 && FirstFrom(i, t, p).token.kind != UNKNOWN
    ensures p <= FirstFrom(i, t, p).token.ptr && End(FirstFrom(i, t, p)) <= FirstFrom(i, t, p).pos
    decreases 6 - i
  {
    TryBegins(i, t, p);
    if Try(i, t, p).ret == 0 && i < 5 {
      FirstBegins(i + 1, t, Try(i, t, p).pos);
    }
  }

  lemma TryBegins(i: nat, t: string, p: nat)
    requires p <= |t| && i <= 5
    ensures p <= Try(i, t, p).token.ptr && End(Try(i, t, p)) <= Try(i, t, p).pos
  {
  }
}
