/** Integers in base 2, 8, 10 and 16: what the printer writes is one token, and the C library reads the value back. */
module Numbers {
  import opened Arith
  import opened Base
  import opened Lexer
  import opened Scanner
  import opened IntegerText

  /** `isspace` of the C locale. */
  predicate IsSpace(c: char) {
    c == ' ' || 9 <= c as int <= 13
  }

  function SkipSpace(s: string, i: nat): (j: nat)
    requires i <= |s|
    ensures i <= j <= |s|
    decreases |s| - i
  {
    if i < |s| && IsSpace(s[i]) then SkipSpace(s, i + 1) else i
  }

  /** The end of the digits of a base. */
  function DigitsEnd(s: string, i: nat, b: nat): (j: nat)
    requires i <= |s|
    ensures i <= j <= |s|
    decreases |s| - i
  {
    if i < |s| && DigitValue(s[i]) < b then DigitsEnd(s, i + 1, b) else i
  }

  /** The subject sequence of `strtol`, section 7.22.1.4 of ISO C11: a sign, the magnitude and the end, or no number. */
  datatype Subject = Subject(negative: bool, magnitude: nat, end: nat) | NoNumber

  function SubjectOf(s: string, b: nat): Subject
    requires 2 <= b <= 16
  {
    var i := SkipSpace(s, 0);
    var j := SkipSign(s, i);
    var hex := b == 16 && Sees(s, j, '0') && (Sees(s, j + 1, 'x') || Sees(s, j + 1, 'X')) && j + 2 < |s| &&
      DigitValue(s[j + 2]) < 16;
    var d := if hex then j + 2 else j;
    var e := DigitsEnd(s, d, b);
    if e > d then Subject(Sees(s, i, '-'), Value(s[d..e], b), e) else NoNumber
  }

  /** `strtol` for a 32-bit `long`: the value, clamped, and the number of characters used. */
  function StrToL(s: string, b: nat): (int, nat)
    requires 2 <= b <= 16
  {
    match SubjectOf(s, b)
    case NoNumber => (0, 0)
    case Subject(negative, m, e) =>
      var i: int := m;
      var v := if negative then -i else i;
      (if v < -TWO_TO_31 then -TWO_TO_31 else if v >= TWO_TO_31 then TWO_TO_31 - 1 else v, e)
  }

  /** `strtoul` for a 32-bit `unsigned long`: a minus sign negates modulo 2^32. */
  function StrToUL(s: string, b: nat): (nat, nat)
    requires 2 <= b <= 16
  {
    match SubjectOf(s, b)
    case NoNumber => (0, 0)
    case Subject(negative, m, e) =>
      if m > TWO_TO_32 - 1 then (TWO_TO_32 - 1, e)
      else if negative && m > 0 then (TWO_TO_32 - m, e)
      else (m, e)
  }

  predicate IsInt32(v: int) {
    -TWO_TO_31 <= v < TWO_TO_31
  }

  predicate AllInt32(vals: seq<int>) {
    forall i | 0 <= i < |vals| :: IsInt32(vals[i])
  }

  /** What `SCPI_ResultInt32` writes for a number. */
  function NumText(v: int): (t: string)
    requires IsInt32(v)
    ensures t != ""
  {
    IntText(v % TWO_TO_32, 10, true)
  }

  function NumTexts(vals: seq<int>): (ts: seq<string>)
    requires AllInt32(vals)
    ensures |ts| == |vals| && forall i | 0 <= i < |vals| :: ts[i] == NumText(vals[i])
  {
    seq(|vals|, i requires 0 <= i < |vals| => NumText(vals[i]))
  }

  /** What may follow a number: the end, a newline character, or a separator of parameters, lists and channels. */
  predicate Separated(rest: string) {
    rest == "" || rest[0] == ',' || rest[0] == ';' || rest[0] == '\r' || rest[0] == '\n'
    || rest[0] == ':' || rest[0] == '!' || rest[0] == ')'
  }

  predicate AllDigits(t: string, b: nat) {
    forall i | 0 <= i < |t| :: DigitValue(t[i]) < b
  }

  lemma {:induction false} DigitsEndAt(t: string, rest: string, i: nat, n: nat, b: nat)
    requires i <= n <= |t| + |rest| && b <= 16
    requires forall j | i <= j < n :: DigitValue((t + rest)[j]) < b
    requires n < |t| + |rest| ==> DigitValue((t + rest)[n]) >= b
    ensures DigitsEnd(t + rest, i, b) == n
    decreases n - i
  {
    if i < n {
      DigitsEndAt(t, rest, i + 1, n, b);
    }
  }

  lemma SeparatorNoDigit(rest: string, b: nat)
    requires Separated(rest) && b <= 16
    ensures rest != "" ==> DigitValue(rest[0]) >= b
  {
  }

  lemma DigitNoSpace(c: char, b: nat)
    requires DigitValue(c) < b <= 16
    ensures !IsSpace(c) && c != '+' && c != '-' && c != 'x' && c != 'X'
  {
  }

  /** The C library takes a digit text for its value, wherever a separator follows. */
  lemma SubjectOfDigits(t: string, rest: string, b: nat)
    requires 2 <= b <= 16 && t != "" && AllDigits(t, b) && Separated(rest)
    ensures SubjectOf(t + rest, b) == Subject(false, Value(t, b), |t|)
  {
    var s := t + rest;
    DigitNoSpace(t[0], b);
    if |t| > 1 {
      DigitNoSpace(t[1], b);
    }
    SeparatorNoDigit(rest, b);
    DigitsEndAt(t, rest, 0, |t|, b);
    assert s[0..|t|] == t;
  }

  lemma SubjectOfNegative(t: string, rest: string, b: nat)
    requires 2 <= b <= 16 && t != "" && AllDigits(t, b) && Separated(rest)
    ensures SubjectOf("-" + t + rest, b) == Subject(true, Value(t, b), |t| + 1)
  {
    var s := ("-" + t) + rest;
    DigitNoSpace(t[0], b);
    if |t| > 1 {
      DigitNoSpace(t[1], b);
    }
    NegativeEnds(t, rest, b);
    NegativeSubject(s, t, b);
  }

  lemma NegativeEnds(t: string, rest: string, b: nat)
    requires 2 <= b <= 16 && t != "" && AllDigits(t, b) && Separated(rest)
    ensures var s := ("-" + t) + rest;
      DigitsEnd(s, 1, b) == |t| + 1 && s[1..|t| + 1] == t && s[0] == '-' && s[1] == t[0]
    ensures |t| > 1 ==> (("-" + t) + rest)[2] == t[1]
    ensures |t| == 1 ==> |rest| > 0 ==> (("-" + t) + rest)[2] == rest[0]
  {
    SeparatorNoDigit(rest, b);
    DigitsEndAt("-" + t, rest, 1, |t| + 1, b);
  }

  /** The subject of a text that begins with a minus sign and digits. */
  lemma NegativeSubject(s: string, t: string, b: nat)
    requires 2 <= b <= 16 && t != "" && |s| > |t| && s[0] == '-' && DigitsEnd(s, 1, b) == |t| + 1 && s[1..|t| + 1] == t
    requires |s| > 2 ==> s[2] != 'x' && s[2] != 'X'
    ensures SubjectOf(s, b) == Subject(true, Value(t, b), |t| + 1)
  {
    assert SkipSpace(s, 0) == 0 && SkipSign(s, 0) == 1;
  }

  lemma DigitsAllDigits(v: nat, b: nat)
    requires 2 <= b <= 16
    ensures AllDigits(Digits(v, b), b)
  {
    DigitsCanonical(v, b);
    var t := Digits(v, b);
    assert forall i | 0 <= i < |t| :: t[i] in t;
  }

  lemma {:induction false} RunAt(s: string, i: nat, n: nat, k: CharClass)
    requires i <= n <= |s| && forall j | i <= j < n :: In(s[j], k)
    requires n < |s| ==> !In(s[n], k)
    ensures Run(s, i, k) == n
    decreases n - i
  {
    if i < n {
      RunAt(s, i + 1, n, k);
    }
  }

  /** The token type of a number printed in a base. */
  function KindOf(base: nat): TokenType {
    if base == 2 then BINNUM else if base == 8 then OCTNUM else if base == 16 then HEXNUM else DECIMAL_NUMERIC
  }

  function ClassOf(base: nat): CharClass {
    if base == 2 then BinDigit else if base == 8 then OctDigit else if base == 16 then HexDigit else Digit
  }

  lemma DigitInClass(c: char, base: nat)
    requires base in {2, 8, 10, 16}
    ensures DigitValue(c) < base <==> In(c, ClassOf(base))
  {
  }

  /** The number ends at `n`, and neither an exponent nor a suffix follows. */
  lemma DecimalScan(s: string, p: nat, n: nat)
    requires p < n <= |s| && (s[p] == '-' || IsDigit(s[p])) && (s[p] == '-' ==> p + 1 < n)
    requires (forall i | p < i < n :: IsDigit(s[i])) && Separated(s[n..])
    ensures Decimal(s, p) == n && DecimalData(s, p, n) == Parsed(n, Token(DECIMAL_NUMERIC, p, n - p), n - p)
    ensures Run(s, p, Blank) == p && Run(s, n, Blank) == n
  {
    assert n < |s| ==> s[n] == s[n..][0];
    var q := SkipSign(s, p);
    RunAt(s, q, n, Digit);
    RunAt(s, n, n, Blank);
    RunAt(s, n, n, Letter);
    RunAt(s, p, p, Blank);
    assert Mantissa(s, p) == (n, n - q);
    assert Exponent(s, n) == n;
    assert Suffix(s, n) == n;
  }

  lemma FirstIsDecimal(s: string, p: nat, n: nat)
    requires p < n <= |s| && (s[p] == '-' || IsDigit(s[p])) && Decimal(s, p) == n
    requires DecimalData(s, p, n) == Parsed(n, Token(DECIMAL_NUMERIC, p, n - p), n - p)
    ensures FirstFrom(0, s, p) == DecimalData(s, p, n)
  {
    assert Try(0, s, p) == Parsed(p, Token(UNKNOWN, p, 0), 0);
    assert Try(1, s, p) == Parsed(p, Token(UNKNOWN, p, 0), 0);
    assert FirstFrom(0, s, p) == FirstFrom(1, s, p) == FirstFrom(2, s, p);
    assert Try(2, s, p) == DecimalData(s, p, n);
  }

  /** A decimal number in front of a separator is one token of its own. */
  lemma DecimalToken(s: string, p: nat, n: nat)
    requires p < n <= |s| && (s[p] == '-' || IsDigit(s[p])) && (s[p] == '-' ==> p + 1 < n)
    requires (forall i | p < i < n :: IsDigit(s[i])) && Separated(s[n..])
    ensures ParseData(s, p) == Parsed(n, Token(DECIMAL_NUMERIC, p, n - p), n - p)
    ensures Decimal(s, p) == n
  {
    DecimalScan(s, p, n);
    FirstIsDecimal(s, p, n);
    ParseDataBy(s, p, p, Parsed(n, Token(DECIMAL_NUMERIC, p, n - p), n - p), n);
  }

  /** So is a number with its base prefix; the prefix is not part of the token. */
  lemma BasedToken(s: string, p: nat, n: nat, base: nat)
    requires base in {2, 8, 16} && p + 2 < n <= |s| && s[p..p + 2] == BasePrefix(base)
    requires (forall i | p + 2 <= i < n :: DigitValue(s[i]) < base) && Separated(s[n..])
    ensures ParseData(s, p) == Parsed(n, Token(KindOf(base), p + 2, n - p - 2), n - p)
  {
    ParseDataIs(s, p);
    assert n < |s| ==> s[n] == s[n..][0];
    assert s[p] == s[p..p + 2][0] && s[p + 1] == s[p..p + 2][1];
    forall i | p + 2 <= i < n ensures In(s[i], ClassOf(base)) {
      DigitInClass(s[i], base);
    }
    if n < |s| {
      DigitInClass(s[n], base);
    }
    RunAt(s, p + 2, n, ClassOf(base));
    RunAt(s, n, n, Blank);
    RunAt(s, p, p, Blank);
    assert Try(0, s, p) == Parsed(n, Token(KindOf(base), p + 2, n - p - 2), n - p);
  }

  lemma UnsignedToken(digits: string, base: nat, rest: string)
    requires base in {2, 8, 10, 16} && digits != "" && AllDigits(digits, base) && Separated(rest)
    ensures var n := |BasePrefix(base)|;
      ParseData(BasePrefix(base) + digits + rest, 0) == Parsed(n + |digits|, Token(KindOf(base), n, |digits|),
        n + |digits|)
  {
    var prefix := BasePrefix(base);
    var s, n := prefix + digits + rest, |prefix| + |digits|;
    assert s[n..] == rest;
    assert forall i | |prefix| <= i < n :: s[i] == digits[i - |prefix|];
    if base == 10 {
      forall i | 0 <= i < n ensures IsDigit(s[i]) {
        DigitInClass(s[i], 10);
      }
      DecimalToken(s, 0, n);
    } else {
      assert s[0..2] == prefix;
      BasedToken(s, 0, n, base);
    }
  }

  /**
   A 32-bit number printed with its prefix, with a separator behind it, is one token of the right type; it has no
   leading zero, and the C library reads the number back from the token.
   */
  lemma UnsignedRoundTrip(val: nat, base: nat, rest: string)
    requires val < TWO_TO_32 && base in {2, 8, 10, 16} && Separated(rest)
    ensures var digits, n := IntText(val, base, false), |BasePrefix(base)|;
      ParseData(BasePrefix(base) + digits + rest, 0) == Parsed(n + |digits|, Token(KindOf(base), n, |digits|),
        n + |digits|)
    ensures var digits, n := IntText(val, base, false), |BasePrefix(base)|;
      StrToUL((BasePrefix(base) + digits + rest)[n..], base) == (val, |digits|)
    ensures var digits := IntText(val, base, false); digits[0] == '0' ==> digits == "0"
  {
    var digits := Digits(val, base);
    DigitsCanonical(val, base);
    DigitsAllDigits(val, base);
    UnsignedToken(digits, base, rest);
    BehindPrefix(BasePrefix(base), digits, rest);
    UnsignedValue(val, base, rest);
  }

  lemma UnsignedValue(val: nat, base: nat, rest: string)
    requires val < TWO_TO_32 && 2 <= base <= 16 && Separated(rest)
    ensures StrToUL(Digits(val, base) + rest, base) == (val, |Digits(val, base)|)
  {
    DigitsValue(val, base);
    DigitsAllDigits(val, base);
    SubjectOfDigits(Digits(val, base), rest, base);
  }

  lemma BehindPrefix(a: string, b: string, c: string)
    ensures (a + b + c)[|a|..] == b + c
  {
  }

  lemma SignedToken(before: string, t: string, rest: string)
    requires t != "" && (t[0] == '-' || IsDigit(t[0])) && (t[0] == '-' ==> |t| > 1)
    requires (forall i | 0 < i < |t| :: IsDigit(t[i])) && Separated(rest)
    ensures var p := |before|;
      ParseData(before + t + rest, p) == Parsed(p + |t|, Token(DECIMAL_NUMERIC, p, |t|), |t|)
    ensures Decimal(before + t + rest, |before|) == |before| + |t|
  {
    var s, p := before + t + rest, |before|;
    assert s[p + |t|..] == rest;
    assert forall i | p <= i < p + |t| :: s[i] == t[i - p];
    DecimalToken(s, p, p + |t|);
  }

  lemma SignedValue(val: int, rest: string)
    requires IsInt32(val) && Separated(rest)
    ensures var t := NumText(val); StrToL(t + rest, 10) == (val, |t|)
  {
    SignedText(val);
    var m := if val < 0 then -val else val;
    DigitsValue(m, 10);
    DigitsAllDigits(m, 10);
    if val < 0 {
      SubjectOfNegative(Digits(m, 10), rest, 10);
    } else {
      SubjectOfDigits(Digits(m, 10), rest, 10);
    }
  }

  /** A signed number printed in base 10 is one decimal token at any place, and reads back, the least one included. */
  lemma SignedRoundTrip(before: string, val: int, rest: string)
    requires IsInt32(val) && Separated(rest)
    ensures var t, p := NumText(val), |before|;
      ParseData(before + t + rest, p) == Parsed(p + |t|, Token(DECIMAL_NUMERIC, p, |t|), |t|)
    ensures var t := NumText(val);
      StrToL((before + t + rest)[|before|..], 10) == (val, |t|)
    ensures var t := NumText(val);
      t != "" && Decimal(before + t + rest, |before|) == |before| + |t|
  {
    var t := NumText(val);
    SignedText(val);
    SignedDigits(val, t);
    SignedToken(before, t, rest);
    BehindPrefix(before, t, rest);
    SignedValue(val, rest);
  }

  lemma SignedText(val: int)
    requires IsInt32(val)
    ensures NumText(val) == if val < 0 then "-" + Digits(-val, 10) else Digits(val, 10)
  {
    Word(val);
    var w := if val < 0 then val + TWO_TO_32 else val;
    assert NumText(val) == IntText(w, 10, true);
    WordText(w);
  }

  lemma WordText(w: nat)
    requires w < TWO_TO_32
    ensures IntText(w, 10, true) == if w >= TWO_TO_31 then "-" + Digits(TWO_TO_32 - w, 10) else Digits(w, 10)
  {
  }

  /** The 32-bit word that holds a signed number. */
  lemma Word(val: int)
    requires IsInt32(val)
    ensures val % TWO_TO_32 == if val < 0 then val + TWO_TO_32 else val
  {
    if val < 0 {
      DivModUnique(-1, val + TWO_TO_32, TWO_TO_32);
    } else {
      DivModUnique(0, val, TWO_TO_32);
    }
  }

  lemma SignedDigits(val: int, t: string)
    requires IsInt32(val) && t == if val < 0 then "-" + Digits(-val, 10) else Digits(val, 10)
    ensures t != "" && (t[0] == '-' || IsDigit(t[0])) && (t[0] == '-' ==> |t| > 1)
    ensures forall i | 0 < i < |t| :: IsDigit(t[i])
  {
    var m := if val < 0 then -val else val;
    DigitsAllDigits(m, 10);
    forall i | 0 <= i < |Digits(m, 10)| ensures IsDigit(Digits(m, 10)[i]) {
      DigitInClass(Digits(m, 10)[i], 10);
    }
  }
}
