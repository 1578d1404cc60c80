/** The recognisers do not look back: bytes in front of the position only shift what they find. */
module Shifting {
  import opened Base
  import opened Lexer
  import opened Scanner

  lemma {:induction false} RunShift(x: string, s: string, p: nat, k: CharClass)
    requires p <= |s|
    ensures Run(x + s, |x| + p, k) == |x| + Run(s, p, k)
    decreases |s| - p
  {
    if p < |s| && In(s[p], k) {
      RunShift(x, s, p + 1, k);
    }
  }

  lemma SkipShift(x: string, s: string, p: nat, c: char)
    requires p <= |s|
    ensures SkipChr(x + s, |x| + p, c) == |x| + SkipChr(s, p, c)
    ensures SkipSign(x + s, |x| + p) == |x| + SkipSign(s, p)
    ensures SkipDigit(x + s, |x| + p) == |x| + SkipDigit(s, p)
  {
  }

  lemma MnemonicShift(x: string, s: string, p: nat)
    requires p <= |s|
    ensures Mnemonic(x + s, |x| + p) == |x| + Mnemonic(s, p)
  {
    if p < |s| {
      RunShift(x, s, p + 1, WordChar);
    }
  }

  lemma MantissaShift(x: string, s: string, p: nat)
    requires p <= |s|
    ensures Mantissa(x + s, |x| + p) == (|x| + Mantissa(s, p).0, Mantissa(s, p).1)
  {
    SkipShift(x, s, p, '+');
    var q := SkipSign(s, p);
    RunShift(x, s, q, Digit);
    var d := Run(s, q, Digit);
    if d < |s| {
      RunShift(x, s, d + 1, Digit);
    }
  }

  lemma ExponentShift(x: string, s: string, p: nat)
    requires p <= |s|
    ensures Exponent(x + s, |x| + p) == |x| + Exponent(s, p)
  {
    RunShift(x, s, p, Blank);
    var w := Run(s, p, Blank);
    if w < |s| {
      RunShift(x, s, w + 1, Blank);
      var b := Run(s, w + 1, Blank);
      SkipShift(x, s, b, '+');
      RunShift(x, s, SkipSign(s, b), Digit);
    }
  }

  lemma DecimalShift(x: string, s: string, p: nat)
    requires p <= |s|
    ensures Decimal(x + s, |x| + p) == |x| + Decimal(s, p)
  {
    MantissaShift(x, s, p);
    ExponentShift(x, s, Mantissa(s, p).0);
  }

  lemma SuffixUnitShift(x: string, s: string, p: nat)
    requires p <= |s|
    ensures SuffixUnit(x + s, |x| + p) == |x| + SuffixUnit(s, p)
  {
    RunShift(x, s, p, Letter);
    var a := Run(s, p, Letter);
    SkipShift(x, s, a, '-');
    SkipShift(x, s, SkipChr(s, a, '-'), '-');
  }

  lemma {:induction false} SuffixTailShift(x: string, s: string, p: nat)
    requires p <= |s|
    ensures SuffixTail(x + s, |x| + p) == |x| + SuffixTail(s, p)
    decreases |s| - p
  {
    SeesShift(x, s, p, '/');
    SeesShift(x, s, p, '.');
    if Sees(s, p, '/') || Sees(s, p, '.') {
      var q := UnitShift(x, s, p + 1);
      SuffixTailShift(x, s, q);
      SuffixTailNext(s, p, q);
      SuffixTailNext(x + s, |x| + p, |x| + q);
    } else {
      SuffixTailStops(s, p);
      SuffixTailStops(x + s, |x| + p);
    }
  }

  lemma SeesShift(x: string, s: string, p: nat, c: char)
    ensures Sees(x + s, |x| + p, c) <==> Sees(s, p, c)
  {
  }

  lemma UnitShift(x: string, s: string, p: nat) returns (q: nat)
    requires p <= |s|
    ensures p <= q <= |s| && q == SuffixUnit(s, p) && |x| + q == SuffixUnit(x + s, |x| + p)
  {
    q := SuffixUnit(s, p);
    SuffixUnitShift(x, s, p);
  }

  lemma SuffixTailNext(s: string, p: nat, q: nat)
    requires p < |s| && (Sees(s, p, '/') || Sees(s, p, '.')) && q == SuffixUnit(s, p + 1)
    ensures SuffixTail(s, p) == SuffixTail(s, q)
  {
  }

  lemma SuffixTailStops(s: string, p: nat)
    requires p <= |s| && !Sees(s, p, '/') && !Sees(s, p, '.')
    ensures SuffixTail(s, p) == p
  {
  }

  lemma SuffixShift(x: string, s: string, p: nat)
    requires p <= |s|
    ensures Suffix(x + s, |x| + p) == |x| + Suffix(s, p)
  {
    SkipShift(x, s, p, '/');
    var a := SkipChr(s, p, '/');
    RunShift(x, s, a, Letter);
    if Run(s, a, Letter) > a {
      var q := UnitShift(x, s, a);
      SuffixTailShift(x, s, q);
      SuffixGoes(s, p, a, q);
      SuffixGoes(x + s, |x| + p, |x| + a, |x| + q);
    } else {
      SuffixStops(s, p, a);
      SuffixStops(x + s, |x| + p, |x| + a);
    }
  }

  lemma SuffixGoes(s: string, p: nat, a: nat, q: nat)
    requires p <= |s| && a == SkipChr(s, p, '/') && Run(s, a, Letter) > a && q == SuffixUnit(s, a)
    ensures Suffix(s, p) == SuffixTail(s, q)
  {
  }

  lemma SuffixStops(s: string, p: nat, a: nat)
    requires p <= |s| && a == SkipChr(s, p, '/') && Run(s, a, Letter) == a
    ensures Suffix(s, p) == a
  {
  }

  function Shifted(d: Parsed, n: nat): Parsed {
    Parsed(n + d.pos, Token(d.token.kind, n + d.token.ptr, d.token.len), d.ret)
  }

  function FarLexed(l: Lexed, n: nat): Lexed {
    Lexed(n + l.pos, Token(l.token.kind, n + l.token.ptr, l.token.len))
  }

  lemma DecimalDataShift(x: string, s: string, p: nat, d: nat)
    requires p < d <= |s|
    ensures DecimalData(x + s, |x| + p, |x| + d) == Shifted(DecimalData(s, p, d), |x|)
  {
    RunShift(x, s, d, Blank);
    var w := Run(s, d, Blank);
    SuffixShift(x, s, w);
    var q := Suffix(s, w);
    if q > w {
      Suffixed(s, p, d, w, q);
      Suffixed(x + s, |x| + p, |x| + d, |x| + w, |x| + q);
    } else {
      Unsuffixed(s, p, d, w);
      Unsuffixed(x + s, |x| + p, |x| + d, |x| + w);
    }
  }

  lemma Suffixed(s: string, p: nat, d: nat, w: nat, q: nat)
    requires p < d <= |s| && w == Run(s, d, Blank) && q == Suffix(s, w) > w
    ensures DecimalData(s, p, d) == Parsed(q, Token(DECIMAL_NUMERIC_WITH_SUFFIX, p, q - p), q - p)
  {
  }

  lemma Unsuffixed(s: string, p: nat, d: nat, w: nat)
    requires p < d <= |s| && w == Run(s, d, Blank) && Suffix(s, w) == w
    ensures DecimalData(s, p, d) == Parsed(w, Token(DECIMAL_NUMERIC, p, d - p), d - p)
  {
  }

  lemma BasedShift(x: string, s: string, p: nat, kind: TokenType, k: CharClass)
    requires p + 2 <= |s|
    ensures Based(x + s, |x| + p, kind, k) == FarLexed(Based(s, p, kind, k), |x|)
  {
    RunShift(x, s, p + 2, k);
  }

  lemma NondecimalShift(x: string, s: string, p: nat)
    requires p <= |s|
    ensures LexNondecimalNumericData(x + s, |x| + p) == FarLexed(LexNondecimalNumericData(s, p), |x|)
  {
    if p + 2 <= |s| && s[p] == '#' {
      var c := s[p + 1];
      assert (x + s)[|x| + p + 1] == c;
      if c == 'h' || c == 'H' {
        BasedShift(x, s, p, HEXNUM, HexDigit);
      } else if c == 'q' || c == 'Q' {
        BasedShift(x, s, p, OCTNUM, OctDigit);
      } else if c == 'b' || c == 'B' {
        BasedShift(x, s, p, BINNUM, BinDigit);
      }
    }
  }

  lemma {:induction false} QuoteEndShift(x: string, s: string, p: nat, quote: char)
    requires p <= |s|
    ensures QuoteEnd(x + s, |x| + p, quote) == |x| + QuoteEnd(s, p, quote)
    decreases |s| - p
  {
    if p < |s| {
      if s[p] == quote {
        if p + 1 < |s| && s[p + 1] == quote {
          QuoteEndShift(x, s, p + 2, quote);
        }
      } else if IsAscii(s[p]) {
        QuoteEndShift(x, s, p + 1, quote);
      }
    }
  }

  lemma StringShift(x: string, s: string, p: nat)
    requires p <= |s|
    ensures LexStringProgramData(x + s, |x| + p) == FarLexed(LexStringProgramData(s, p), |x|)
  {
    if p < |s| {
      assert (x + s)[|x| + p] == s[p];
      QuoteEndShift(x, s, p + 1, s[p]);
    }
  }

  lemma {:induction false} LengthDigitsShift(x: string, s: string, p: nat, n: nat, v: nat)
    requires p <= |s|
    ensures var a, b := LengthDigits(x + s, |x| + p, n, v), LengthDigits(s, p, n, v); a == (|x| + b.0, b.1, b.2)
    decreases n
  {
    if n > 0 && p < |s| && IsDigit(s[p]) {
      LengthDigitsShift(x, s, p + 1, n - 1, v * 10 + (s[p] as int - '0' as int));
    }
  }

  lemma BlockShift(x: string, s: string, p: nat)
    requires p <= |s|
    ensures LexArbitraryBlockProgramData(x + s, |x| + p) == FarLexed(LexArbitraryBlockProgramData(s, p), |x|)
  {
    if p + 1 < |s| && IsDigit(s[p + 1]) {
      assert (x + s)[|x| + p + 1] == s[p + 1];
      LengthDigitsShift(x, s, p + 2, s[p + 1] as int - '0' as int, 0);
    }
  }

  lemma ExpressionShift(x: string, s: string, p: nat)
    requires p <= |s|
    ensures LexProgramExpression(x + s, |x| + p) == FarLexed(LexProgramExpression(s, p), |x|)
  {
    if p < |s| {
      RunShift(x, s, p + 1, ExpressionChar);
    }
  }

  lemma TryShift(i: nat, x: string, s: string, p: nat)
    requires p <= |s| && i <= 5
    ensures Try(i, x + s, |x| + p) == Shifted(Try(i, s, p), |x|)
  {
    if i == 0 {
      NondecimalShift(x, s, p);
    } else if i == 1 {
      MnemonicShift(x, s, p);
    } else if i == 2 {
      TryDecimalShift(x, s, p);
    } else if i == 3 {
      StringShift(x, s, p);
    } else if i == 4 {
      BlockShift(x, s, p);
    } else {
      ExpressionShift(x, s, p);
    }
  }

  lemma TryDecimalShift(x: string, s: string, p: nat)
    requires p <= |s|
    ensures Try(2, x + s, |x| + p) == Shifted(Try(2, s, p), |x|)
  {
    DecimalShift(x, s, p);
    if Decimal(s, p) > p {
      DecimalDataShift(x, s, p, Decimal(s, p));
    }
  }

  /** What recogniser `i` makes of the text at `p`, for proofs that need not know more of it. */
  ghost predicate Tried(i: nat, s: string, p: nat, r: Parsed)
    requires p <= |s|
  {
    r.pos <= |s| && forall q: nat {:trigger Asked(s, q)} :: Asked(s, q) && q == p ==> r == Try(i, s, p)
  }

  /** What the recognisers from number `i` on make of it. */
  ghost predicate Recognised(i: nat, s: string, p: nat, r: Parsed)
    requires p <= |s| && i <= 5
  {
    r.pos <= |s| && forall q: nat {:trigger Asked(s, q)} :: Asked(s, q) && q == p ==> r == FirstFrom(i, s, p)
  }

  lemma Tries(i: nat, x: string, s: string, p: nat) returns (r: Parsed)
    requires p <= |s| && i <= 5
    ensures Tried(i, s, p, r) && Tried(i, x + s, |x| + p, Shifted(r, |x|))
  {
    r := Try(i, s, p);
    TryShift(i, x, s, p);
  }

  lemma RecognisedBy(i: nat, s: string, p: nat, t: Parsed, r: Parsed)
    requires p <= |s| && i <= 5 && Tried(i, s, p, t)
    requires if t.ret > 0 || i == 5 then r == t else Recognised(i + 1, s, t.pos, r)
    ensures Recognised(i, s, p, r)
  {
    assert Asked(s, p) && Asked(s, t.pos);
  }

  /** The first recogniser that succeeds makes the same of the text wherever it stands. */
  lemma {:induction false} FirstShift(i: nat, x: string, s: string, p: nat) returns (r: Parsed)
    requires p <= |s| && i <= 5
    ensures Recognised(i, s, p, r) && Recognised(i, x + s, |x| + p, Shifted(r, |x|))
    decreases 6 - i
  {
    var t := Tries(i, x, s, p);
    r := t;
    if t.ret == 0 && i < 5 {
      r := FirstShift(i + 1, x, s, t.pos);
    }
    RecognisedBy(i, s, p, t, r);
    RecognisedBy(i, x + s, |x| + p, Shifted(t, |x|), Shifted(r, |x|));
  }

  lemma DataFrom(s: string, p: nat, w: nat, d: Parsed, e: nat)
    requires p <= |s| && w == Run(s, p, Blank) && Recognised(0, s, w, d) && e == Run(s, d.pos, Blank)
    ensures ParseData(s, p) == Parsed(e, d.token, d.ret + (w - p) + (e - d.pos))
  {
    assert Asked(s, w);
    ParseDataBy(s, p, w, d, e);
  }

  /** The parts of an element, here and in the shifted text. */
  lemma ElementParts(x: string, s: string, p: nat) returns (w: nat, d: Parsed, e: nat)
    requires p <= |s|
    ensures w == Run(s, p, Blank) && Recognised(0, s, w, d) && e == Run(s, d.pos, Blank)
    ensures |x| + w == Run(x + s, |x| + p, Blank) && Recognised(0, x + s, |x| + w, Shifted(d, |x|))
    ensures |x| + e == Run(x + s, |x| + d.pos, Blank)
  {
    w := Run(s, p, Blank);
    RunShift(x, s, p, Blank);
    d := FirstShift(0, x, s, w);
    RunShift(x, s, d.pos, Blank);
    e := Run(s, d.pos, Blank);
  }

  lemma ShiftedElement(n: nat, p: nat, w: nat, d: Parsed, e: nat)
    requires p <= w && d.pos <= e
    ensures var f := Shifted(d, n);
      Parsed(n + e, f.token, f.ret + ((n + w) - (n + p)) + ((n + e) - f.pos)) ==
      Shifted(Parsed(e, d.token, d.ret + (w - p) + (e - d.pos)), n)
  {
  }

  /** An element of program data is the same wherever it stands. */
  lemma ParseDataShift(x: string, s: string, p: nat)
    requires p <= |s|
    ensures ParseData(x + s, |x| + p) == Shifted(ParseData(s, p), |x|)
  {
    var w, d, e := ElementParts(x, s, p);
    DataFrom(s, p, w, d, e);
    ShiftedElement(|x|, p, w, d, e);
    DataFrom(x + s, |x| + p, |x| + w, Shifted(d, |x|), |x| + e);
  }
}
