/** Numbers as IEEE 488.2 writes them, section 7.7.2 and 7.7.3: what is one token, and where it ends. */
module Grammar {
  import opened Base
  import opened IntegerText
  import opened Lexer
  import opened Scanner
  import opened Numbers

  /** The text goes on with `t` at `p`. */
  ghost predicate At(s: string, p: nat, t: string) {
    p + |t| <= |s| && forall q: nat {:trigger Asked(s, q)} :: Asked(s, q) && q == p ==> s[p..p + |t|] == t
  }

  lemma AtParts(s: string, p: nat, a: string, b: string)
    requires At(s, p, a + b)
    ensures At(s, p, a) && At(s, p + |a|, b)
  {
    assert Asked(s, p);
    var u := s[p..p + |a + b|];
    assert u[..|a|] == a && u[|a|..] == b;
    assert s[p..p + |a|] == u[..|a|] && s[p + |a|..p + |a| + |b|] == u[|a|..];
  }

  lemma AtIndex(s: string, p: nat, t: string)
    requires At(s, p, t)
    ensures forall i | 0 <= i < |t| :: s[p + i] == t[i]
    ensures forall i | p <= i < p + |t| :: s[i] == t[i - p]
  {
    assert Asked(s, p);
    var u := s[p..p + |t|];
    assert forall i | 0 <= i < |t| :: u[i] == s[p + i];
  }

  lemma AtIn(a: string, t: string, b: string)
    ensures At(a + t + b, |a|, t) && (b != "" ==> (a + t + b)[|a| + |t|] == b[0])
  {
  }

  predicate IsBlanks(t: string) {
    forall i | 0 <= i < |t| :: t[i] == ' ' || t[i] == '\t'
  }

  predicate IsSign(t: string) {
    t == "" || t == "+" || t == "-"
  }

  predicate IsNumeric(t: string) {
    forall i | 0 <= i < |t| :: '0' <= t[i] <= '9'
  }

  predicate IsLetters(t: string) {
    forall i | 0 <= i < |t| :: 'a' <= t[i] <= 'z' || 'A' <= t[i] <= 'Z'
  }

  /** What ends an element: the end of the text, or a separator. */
  predicate Stop(s: string, p: nat)
    requires p <= |s|
  {
    Separated(s[p..])
  }

  lemma StopIs(s: string, p: nat)
    requires p <= |s|
    ensures Stop(s, p) <==>
      p == |s| || s[p] == ',' || s[p] == ';' || s[p] == '\r' || s[p] == '\n' || s[p] == ':' || s[p] == '!' ||
        s[p] == ')'
  {
  }

  lemma RunOver(s: string, p: nat, t: string, k: CharClass)
    requires At(s, p, t) && forall i | 0 <= i < |t| :: In(t[i], k)
    requires p + |t| < |s| ==> !In(s[p + |t|], k)
    ensures Run(s, p, k) == p + |t|
  {
    AtIndex(s, p, t);
    RunAt(s, p, p + |t|, k);
  }

  /** An exponent: blanks, a mark, blanks, a sign and digits. */
  datatype Power = Power(gap: string, mark: char, gap2: string, sign: string, digits: string) {
    predicate Valid() {
      IsBlanks(gap) && (mark == 'e' || mark == 'E') && IsBlanks(gap2) && IsSign(sign) && IsNumeric(digits)
    }

    function Text(): string {
      gap + ([mark] + (gap2 + (sign + digits)))
    }
  }

  /** A decimal number without its exponent: a sign, digits, a point and digits. */
  datatype Number = Number(sign: string, whole: string, point: bool, frac: string) {
    predicate Valid() {
      && IsSign(sign) && IsNumeric(whole) && IsNumeric(frac) && (!point ==> frac == "") && |whole| + |frac| > 0
    }

    function Text(): string {
      sign + (whole + ((if point then "." else "") + frac))
    }
  }

  predicate NoDigit(s: string, p: nat) {
    p < |s| ==> !('0' <= s[p] <= '9')
  }

  lemma SignOver(s: string, p: nat, sign: string)
    requires At(s, p, sign) && IsSign(sign) && (sign == "" && p < |s| ==> s[p] != '+' && s[p] != '-')
    ensures SkipSign(s, p) == p + |sign|
  {
    AtIndex(s, p, sign);
  }

  lemma MantissaAt(s: string, p: nat, q: nat, d: nat, e: nat, point: bool)
    requires p <= |s| && q == SkipSign(s, p) && d == Run(s, q, Digit) && point == Sees(s, d, '.')
    requires e == if point then Run(s, d + 1, Digit) else d
    ensures Mantissa(s, p) == (e, d - q + if point then e - d - 1 else 0)
  {
  }

  /** The parts of a number lie one behind the other. */
  lemma NumberParts(s: string, p: nat, m: Number)
    requires At(s, p, m.Text())
    ensures var q := p + |m.sign|; var d := q + |m.whole|; var rest := (if m.point then "." else "") + m.frac;
      && At(s, p, m.sign) && At(s, q, m.whole) && At(s, d, rest) && d + |rest| == p + |m.Text()|
      && (m.point ==> s[d] == '.' && At(s, d + 1, m.frac))
      && (m.whole != "" ==> s[q] == m.whole[0]) && (!m.point && m.frac != "" ==> s[d] == m.frac[0])
  {
    var rest := (if m.point then "." else "") + m.frac;
    AtParts(s, p, m.sign, m.whole + rest);
    AtParts(s, p + |m.sign|, m.whole, rest);
    AtIndex(s, p + |m.sign|, m.whole);
    var d := p + |m.sign| + |m.whole|;
    AtParts(s, d, if m.point then "." else "", m.frac);
    AtIndex(s, d, rest);
  }

  /** The digits in front of the point and behind it. */
  lemma MantissaOver(s: string, p: nat, m: Number, e: nat)
    requires m.Valid() && At(s, p, m.Text()) && e == p + |m.Text()| && NoDigit(s, e) && (!m.point ==> !Sees(s, e, '.'))
    ensures Mantissa(s, p) == (e, |m.whole| + |m.frac|)
  {
    NumberParts(s, p, m);
    var q := p + |m.sign|;
    var d := q + |m.whole|;
    SignOver(s, p, m.sign);
    RunOver(s, q, m.whole, Digit);
    if m.point {
      RunOver(s, d + 1, m.frac, Digit);
    }
    MantissaAt(s, p, q, d, e, m.point);
  }

  lemma ExponentAt(s: string, p: nat, w: nat, b: nat, g: nat, n: nat)
    requires p <= |s| && w == Run(s, p, Blank) && (Sees(s, w, 'e') || Sees(s, w, 'E')) && b == Run(s, w + 1, Blank)
    requires g == SkipSign(s, b) && n == Run(s, g, Digit)
    ensures Exponent(s, p) == if n > g then n else p
  {
  }

  lemma PowerFront(s: string, p: nat, x: Power)
    requires At(s, p, x.Text())
    ensures var w := p + |x.gap|;
      && At(s, p, x.gap) && w < |s| && s[w] == x.mark && At(s, w + 1, x.gap2 + (x.sign + x.digits))
  {
    var more := x.gap2 + (x.sign + x.digits);
    AtParts(s, p, x.gap, [x.mark] + more);
    AtParts(s, p + |x.gap|, [x.mark], more);
    AtIndex(s, p + |x.gap|, [x.mark]);
  }

  lemma PowerParts(s: string, p: nat, x: Power)
    requires At(s, p, x.Text())
    ensures var w := p + |x.gap|; var b := w + 1 + |x.gap2|; var g := b + |x.sign|;
      && At(s, p, x.gap) && w < |s| && s[w] == x.mark && At(s, w + 1, x.gap2) && At(s, b, x.sign) && At(s, g, x.digits)
      && g + |x.digits| == p + |x.Text()|
  {
    PowerFront(s, p, x);
    var w := p + |x.gap|;
    AtParts(s, w + 1, x.gap2, x.sign + x.digits);
    AtParts(s, w + 1 + |x.gap2|, x.sign, x.digits);
  }

  /** Nothing that could go on an exponent: no blank, sign or digit. */
  predicate Quiet(s: string, p: nat) {
    NoDigit(s, p) && !Sees(s, p, ' ') && !Sees(s, p, '\t') && !Sees(s, p, '+') && !Sees(s, p, '-')
  }

  /** The first character of a part, or the one behind it. */
  lemma PartBegins(s: string, p: nat, t: string)
    requires At(s, p, t)
    ensures t != "" ==> s[p] == t[0]
  {
    AtIndex(s, p, t);
  }

  lemma PowerDigits(s: string, x: Power, b: nat, g: nat, n: nat)
    requires x.Valid() && At(s, b, x.sign) && At(s, g, x.digits) && g == b + |x.sign| && n == g + |x.digits|
    requires NoDigit(s, n) && (x.digits == "" ==> Quiet(s, n))
    ensures SkipSign(s, b) == g && Run(s, g, Digit) == n
    ensures b < |s| && (x.sign != "" || x.digits != "" || Quiet(s, b)) ==> s[b] != ' ' && s[b] != '\t'
  {
    PartBegins(s, b, x.sign);
    PartBegins(s, g, x.digits);
    SignOver(s, b, x.sign);
    RunOver(s, g, x.digits, Digit);
  }

  /** An exponent is taken exactly when it has a digit. */
  lemma ExponentOver(s: string, p: nat, x: Power, n: nat)
    requires x.Valid() && At(s, p, x.Text()) && n == p + |x.Text()| && NoDigit(s, n) && (x.digits == "" ==> Quiet(s, n))
    ensures Exponent(s, p) == if x.digits != "" then n else p
  {
    PowerParts(s, p, x);
    var w := p + |x.gap|;
    var b := w + 1 + |x.gap2|;
    var g := b + |x.sign|;
    PowerDigits(s, x, b, g, n);
    RunOver(s, p, x.gap, Blank);
    RunOver(s, w + 1, x.gap2, Blank);
    ExponentAt(s, p, w, b, g, n);
  }

  /** A decimal number, with an exponent or without. */
  datatype Numeric = Numeric(number: Number, power: Option<Power>) {
    predicate Valid() {
      number.Valid() && (power.Some? ==> power.value.Valid() && power.value.digits != "")
    }

    function Text(): string {
      number.Text() + if power.Some? then power.value.Text() else ""
    }
  }

  lemma NumberBegins(s: string, p: nat, m: Number)
    requires m.Valid() && At(s, p, m.Text())
    ensures m.Text() != "" && p < |s| && (IsDigit(s[p]) || s[p] == '+' || s[p] == '-' || s[p] == '.')
  {
    NumberParts(s, p, m);
    PartBegins(s, p, m.sign);
  }

  /** Where the lexer sees a number end: behind the exponent, or behind the digits when no exponent follows. */
  lemma NumericOver(s: string, p: nat, x: Numeric, n: nat)
    requires x.Valid() && At(s, p, x.Text()) && n == p + |x.Text()| && NoDigit(s, n)
    requires x.power.None? ==> Exponent(s, n) == n && !Sees(s, n, '.')
    ensures Decimal(s, p) == n && n > p
  {
    var e := p + |x.number.Text()|;
    NumericParts(s, p, x);
    if x.power.Some? {
      PowerFront(s, e, x.power.value);
      PartBegins(s, e, x.power.value.gap);
      MantissaOver(s, p, x.number, e);
      ExponentOver(s, e, x.power.value, n);
    } else {
      MantissaOver(s, p, x.number, e);
    }
  }

  lemma NumericParts(s: string, p: nat, x: Numeric)
    requires x.Valid() && At(s, p, x.Text())
    ensures At(s, p, x.number.Text()) && x.number.Text() != ""
    ensures x.power.Some? ==> At(s, p + |x.number.Text()|, x.power.value.Text())
  {
    AtParts(s, p, x.number.Text(), if x.power.Some? then x.power.value.Text() else "");
    NumberBegins(s, p, x.number);
  }

  /** One part of a unit: letters, a minus sign and a digit. */
  datatype Part = Part(letters: string, minus: bool, digit: string) {
    predicate Valid() {
      IsLetters(letters) && IsNumeric(digit) && |digit| <= 1
    }

    function Text(): string {
      letters + ((if minus then "-" else "") + digit)
    }
  }

  /** A part with the slash or point in front of it. */
  datatype Joined = Joined(joint: char, part: Part)

  predicate ValidParts(more: seq<Joined>) {
    forall i | 0 <= i < |more| :: (more[i].joint == '/' || more[i].joint == '.') && more[i].part.Valid()
  }

  function PartsText(more: seq<Joined>): string {
    if more == [] then "" else [more[0].joint] + (more[0].part.Text() + PartsText(more[1..]))
  }

  /** The unit behind a number, as in `1 kV/s2`. */
  datatype UnitName = UnitName(slash: bool, first: Part, more: seq<Joined>) {
    predicate Valid() {
      first.Valid() && first.letters != "" && ValidParts(more)
    }

    function Text(): string {
      (if slash then "/" else "") + (first.Text() + PartsText(more))
    }

    /** An `E` with a digit is an exponent and no unit. */
    predicate IsPower() {
      !slash && (first.letters == "e" || first.letters == "E") && first.digit != ""
    }
  }

  predicate PartEnds(s: string, q: nat) {
    q < |s| ==> !IsAlpha(s[q]) && !IsDigit(s[q]) && s[q] != '-'
  }

  lemma PartOver(s: string, p: nat, a: Part, q: nat)
    requires a.Valid() && At(s, p, a.Text()) && q == p + |a.Text()| && PartEnds(s, q)
    ensures SuffixUnit(s, p) == q
  {
    var rest := (if a.minus then "-" else "") + a.digit;
    AtParts(s, p, a.letters, rest);
    var b := p + |a.letters|;
    PartBegins(s, b, rest);
    AtParts(s, b, if a.minus then "-" else "", a.digit);
    PartBegins(s, b + if a.minus then 1 else 0, a.digit);
    RunOver(s, p, a.letters, Letter);
  }

  lemma PartsBegin(s: string, p: nat, more: seq<Joined>)
    requires At(s, p, PartsText(more)) && more != [] && ValidParts(more)
    ensures p < |s| && s[p] == more[0].joint && At(s, p + 1, more[0].part.Text() + PartsText(more[1..]))
    ensures ValidParts(more[1..])
  {
    AtParts(s, p, [more[0].joint], more[0].part.Text() + PartsText(more[1..]));
    PartBegins(s, p, [more[0].joint]);
  }

  predicate NameEnds(s: string, q: nat) {
    PartEnds(s, q) && !Sees(s, q, '/') && !Sees(s, q, '.')
  }

  lemma {:induction false} PartsOver(s: string, p: nat, more: seq<Joined>, q: nat)
    requires ValidParts(more) && At(s, p, PartsText(more)) && q == p + |PartsText(more)| && NameEnds(s, q)
    ensures SuffixTail(s, p) == q
    decreases |more|
  {
    if more != [] {
      PartsBegin(s, p, more);
      var a, r := more[0].part, more[1..];
      var b := p + 1 + |a.Text()|;
      AtParts(s, p + 1, a.Text(), PartsText(r));
      if r != [] {
        PartsBegin(s, b, r);
      }
      PartOver(s, p + 1, a, b);
      PartsOver(s, b, r, q);
    }
  }

  lemma NameParts(s: string, p: nat, u: UnitName)
    requires u.Valid() && At(s, p, u.Text())
    ensures var a := p + if u.slash then 1 else 0; var b := a + |u.first.Text()|;
      && b <= |s| && (u.slash ==> s[p] == '/') && At(s, a, u.first.Text()) && At(s, b, PartsText(u.more))
      && b + |PartsText(u.more)| == p + |u.Text()| && At(s, a, u.first.letters)
      && IsAlpha(u.first.letters[0]) && s[a] == u.first.letters[0]
  {
    var more := u.first.Text() + PartsText(u.more);
    AtParts(s, p, if u.slash then "/" else "", more);
    PartBegins(s, p, if u.slash then "/" else "");
    var a := p + if u.slash then 1 else 0;
    AtParts(s, a, u.first.Text(), PartsText(u.more));
    AtParts(s, a, u.first.letters, (if u.first.minus then "-" else "") + u.first.digit);
    PartBegins(s, a, u.first.letters);
  }

  /** The unit is recognised up to its end. */
  lemma NameOver(s: string, p: nat, u: UnitName, q: nat)
    requires u.Valid() && At(s, p, u.Text()) && q == p + |u.Text()| && NameEnds(s, q)
    ensures Suffix(s, p) == q > p
  {
    NameParts(s, p, u);
    var a := p + if u.slash then 1 else 0;
    var b := a + |u.first.Text()|;
    if u.more != [] {
      PartsBegin(s, b, u.more);
    }
    PartOver(s, a, u.first, b);
    PartsOver(s, b, u.more, q);
    assert Run(s, a, Letter) > a;
  }

  /** At a digit, sign or point only the decimal recogniser can succeed. */
  lemma OnlyDecimal(s: string, p: nat, n: nat)
    requires p < |s| && (IsDigit(s[p]) || s[p] == '+' || s[p] == '-' || s[p] == '.') && p < n == Decimal(s, p)
    ensures FirstFrom(0, s, p) == DecimalData(s, p, n)
  {
    var none := Parsed(p, Token(UNKNOWN, p, 0), 0);
    assert Try(0, s, p) == none && Try(1, s, p) == none;
    assert FirstFrom(0, s, p) == FirstFrom(1, s, p) == FirstFrom(2, s, p);
    assert Try(2, s, p) == DecimalData(s, p, n);
  }

  /** Blanks and then a character that begins neither an exponent nor a unit. */
  predicate Bare(s: string, n: nat, w: nat) {
    n <= w <= |s| && (forall i | n <= i < w :: s[i] == ' ' || s[i] == '\t') && Separated(s[w..])
  }

  lemma BareEnd(s: string, n: nat, w: nat)
    requires Bare(s, n, w)
    ensures Run(s, n, Blank) == w && Run(s, w, Blank) == w && Exponent(s, n) == n && Suffix(s, w) == w
    ensures NoDigit(s, n) && !Sees(s, n, '.') && NameEnds(s, n)
  {
    assert w < |s| ==> s[w] == s[w..][0];
    RunAt(s, n, w, Blank);
    RunAt(s, w, w, Blank);
    RunAt(s, w, w, Letter);
  }

  /** An element of program data from where the recognisers are tried to behind the blanks that follow it. */
  lemma DecimalElement(s: string, p: nat, x: Numeric, n: nat, w: nat)
    requires x.Valid() && At(s, p, x.Text()) && n == p + |x.Text()| && Bare(s, n, w)
    ensures FirstFrom(0, s, p) == Parsed(w, Token(DECIMAL_NUMERIC, p, n - p), n - p) && Run(s, p, Blank) == p
  {
    BareEnd(s, n, w);
    NumericOver(s, p, x, n);
    NumericParts(s, p, x);
    NumberBegins(s, p, x.number);
    OnlyDecimal(s, p, n);
  }

  lemma BareIn(front: string, after: string, rest: string)
    requires IsBlanks(after) && Separated(rest)
    ensures Bare(front + after + rest, |front|, |front + after|)
  {
    assert (front + after + rest)[|front + after|..] == rest;
  }

  /**
   A number with or without an exponent, before a separator, is one decimal token of exactly its span, wherever it
   stands; the blanks behind it are taken and not counted.
   */
  lemma DecimalIsToken(before: string, x: Numeric, after: string, rest: string)
    requires x.Valid() && IsBlanks(after) && Separated(rest)
    ensures var s, p, n := before + x.Text() + after + rest, |before|, |x.Text()|;
      ParseData(s, p) == Parsed(p + n + |after|, Token(DECIMAL_NUMERIC, p, n), n)
  {
    var s, p, n := before + x.Text() + after + rest, |before|, |x.Text()|;
    AtIn(before, x.Text(), after + rest);
    assert s == before + x.Text() + (after + rest);
    BareIn(before + x.Text(), after, rest);
    DecimalElement(s, p, x, p + n, p + n + |after|);
    BareEnd(s, p + n, p + n + |after|);
    ParseDataIsFirst(s, p, Parsed(p + n + |after|, Token(DECIMAL_NUMERIC, p, n), n));
  }

  /** The exponent is given back exactly when it has no digit. */
  lemma ExponentGivenBack(before: string, m: Number, x: Power, rest: string)
    requires m.Valid() && x.Valid() && NoDigit(rest, 0) && (x.digits == "" ==> Quiet(rest, 0))
    ensures var s, p, n := before + m.Text() + x.Text() + rest, |before|, |m.Text()|;
      LexDecimalNumericProgramData(s, p) == Span(DECIMAL_NUMERIC, p, p + n + if x.digits != "" then |x.Text()| else 0)
  {
    var s, p, e := before + m.Text() + x.Text() + rest, |before|, |before| + |m.Text()|;
    AtIn(before, m.Text(), x.Text() + rest);
    assert s == before + m.Text() + (x.Text() + rest);
    AtIn(before + m.Text(), x.Text(), rest);
    AfterPower(before + m.Text() + x.Text(), rest);
    PowerFront(s, e, x);
    PartBegins(s, e, x.gap);
    MantissaOver(s, p, m, e);
    ExponentOver(s, e, x, e + |x.Text()|);
    NumberBegins(s, p, m);
  }

  lemma AfterPower(front: string, rest: string)
    ensures NoDigit(rest, 0) ==> NoDigit(front + rest, |front|)
    ensures Quiet(rest, 0) ==> Quiet(front + rest, |front|)
  {
    if rest != "" {
      assert (front + rest)[|front|] == rest[0];
    }
  }

  /** A unit that is no exponent is not taken for one. */
  lemma NoPower(s: string, n: nat, w: nat, u: UnitName, q: nat, end: nat)
    requires n <= w <= |s| && (forall i | n <= i < w :: s[i] == ' ' || s[i] == '\t')
    requires u.Valid() && !u.IsPower() && At(s, w, u.Text()) && q == w + |u.Text()| && Bare(s, q, end)
    ensures Run(s, n, Blank) == w && Exponent(s, n) == n && NoDigit(s, n) && !Sees(s, n, '.')
  {
    NameParts(s, w, u);
    RunAt(s, n, w, Blank);
    if !u.slash && (u.first.letters[0] == 'e' || u.first.letters[0] == 'E') {
      BehindMark(s, w, u, q, end);
    }
  }

  /** Behind the first letter of such a unit no digit of an exponent follows. */
  lemma BehindMark(s: string, w: nat, u: UnitName, q: nat, end: nat)
    requires u.Valid() && !u.slash && !u.IsPower() && At(s, w, u.Text()) && q == w + |u.Text()| && Bare(s, q, end)
    requires u.first.letters[0] == 'e' || u.first.letters[0] == 'E'
    ensures w + 1 <= |s| && var g := SkipSign(s, Run(s, w + 1, Blank)); Run(s, g, Digit) == g
  {
    NameParts(s, w, u);
    var a := u.first;
    if |a.letters| > 1 {
      AtIndex(s, w, a.letters);
    } else {
      MarkAlone(s, w, u, q, end);
    }
  }

  lemma MarkAlone(s: string, w: nat, u: UnitName, q: nat, end: nat)
    requires u.Valid() && !u.slash && At(s, w, u.Text()) && q == w + |u.Text()| && Bare(s, q, end)
    requires |u.first.letters| == 1 && u.first.digit == ""
    ensures w + 1 <= |s| && var g := SkipSign(s, Run(s, w + 1, Blank)); Run(s, g, Digit) == g
  {
    NameParts(s, w, u);
    BareEnd(s, q, end);
    var b := w + |u.first.Text()|;
    AtParts(s, w, u.first.letters, if u.first.minus then "-" else "");
    PartBegins(s, w + 1, if u.first.minus then "-" else "");
    if u.more != [] {
      PartsBegin(s, b, u.more);
    }
    StopIs(s, end);
  }

  lemma BlanksOver(s: string, n: nat, w: nat, gap: string)
    requires At(s, n, gap) && w == n + |gap| && IsBlanks(gap)
    ensures w <= |s| && forall i | n <= i < w :: s[i] == ' ' || s[i] == '\t'
  {
    AtIndex(s, n, gap);
  }

  /** Between a number and its unit: no digit and no point follows the number, and what follows is no exponent. */
  lemma BeforeName(s: string, n: nat, w: nat, u: UnitName)
    requires n <= w <= |s| && (forall i | n <= i < w :: s[i] == ' ' || s[i] == '\t') && u.Valid() && At(s, w, u.Text())
    ensures NoDigit(s, n) && Run(s, n, Blank) == w
  {
    NameParts(s, w, u);
    RunAt(s, n, w, Blank);
  }

  lemma BeforeSuffix(s: string, p: nat, x: Numeric, n: nat, w: nat, u: UnitName, q: nat, end: nat)
    requires x.Valid() && At(s, p, x.Text()) && n == p + |x.Text()| <= w <= |s|
    requires forall i | n <= i < w :: s[i] == ' ' || s[i] == '\t'
    requires u.Valid() && At(s, w, u.Text()) && q == w + |u.Text()| && Bare(s, q, end)
    requires x.power.None? ==> !u.IsPower()
    ensures Decimal(s, p) == n > p && Run(s, n, Blank) == w
  {
    BeforeName(s, n, w, u);
    if x.power.None? {
      NoPower(s, n, w, u, q, end);
    }
    NumericOver(s, p, x, n);
  }

  lemma SuffixElement(s: string, p: nat, x: Numeric, n: nat, w: nat, u: UnitName, q: nat, end: nat)
    requires x.Valid() && At(s, p, x.Text()) && n == p + |x.Text()| <= w <= |s|
    requires forall i | n <= i < w :: s[i] == ' ' || s[i] == '\t'
    requires u.Valid() && At(s, w, u.Text()) && q == w + |u.Text()| && Bare(s, q, end)
    requires x.power.None? ==> !u.IsPower()
    ensures FirstFrom(0, s, p) == Parsed(q, Token(DECIMAL_NUMERIC_WITH_SUFFIX, p, q - p), q - p)
    ensures Run(s, p, Blank) == p
  {
    BeforeSuffix(s, p, x, n, w, u, q, end);
    BareEnd(s, q, end);
    NameOver(s, w, u, q);
    NumericParts(s, p, x);
    NumberBegins(s, p, x.number);
    OnlyDecimal(s, p, n);
  }

  /**
   A number, blanks and a unit before a separator are one token, wherever they stand. An `E` and a digit behind a number
   without exponent are its exponent and no unit.
   */
  lemma SuffixIsToken(before: string, x: Numeric, gap: string, u: UnitName, after: string, rest: string)
    requires x.Valid() && IsBlanks(gap) && u.Valid() && IsBlanks(after) && Separated(rest)
    requires x.power.None? ==> !u.IsPower()
    ensures var s, p, n := before + x.Text() + gap + u.Text() + after + rest, |before|, |x.Text() + gap + u.Text()|;
      ParseData(s, p) == Parsed(p + n + |after|, Token(DECIMAL_NUMERIC_WITH_SUFFIX, p, n), n + |after|)
  {
    var a, c := x.Text(), u.Text();
    var s, p, n := before + a + gap + c + after + rest, |before|, |a + gap + c|;
    Laid(before, a, gap, c, after, rest);
    BareIn(before + a + gap + c, after, rest);
    SuffixData(s, p, x, p + |a|, gap, u, p + n, p + n + |after|);
  }

  lemma SuffixData(s: string, p: nat, x: Numeric, n: nat, gap: string, u: UnitName, q: nat, end: nat)
    requires x.Valid() && At(s, p, x.Text()) && n == p + |x.Text()| && IsBlanks(gap) && At(s, n, gap)
    requires u.Valid() && At(s, n + |gap|, u.Text()) && q == n + |gap| + |u.Text()| && Bare(s, q, end)
    requires x.power.None? ==> !u.IsPower()
    ensures ParseData(s, p) == Parsed(end, Token(DECIMAL_NUMERIC_WITH_SUFFIX, p, q - p), end - p)
  {
    BlanksOver(s, n, n + |gap|, gap);
    SuffixElement(s, p, x, n, n + |gap|, u, q, end);
    BareEnd(s, q, end);
    ParseDataBy(s, p, p, Parsed(q, Token(DECIMAL_NUMERIC_WITH_SUFFIX, p, q - p), q - p), end);
  }

  /** Three texts laid one behind the other. */
  lemma Laid(before: string, a: string, b: string, c: string, after: string, rest: string)
    ensures var s, p := before + a + b + c + after + rest, |before|;
      At(s, p, a) && At(s, p + |a|, b) && At(s, p + |a| + |b|, c)
  {
    var s, p := before + a + b + c + after + rest, |before|;
    assert s == before + (a + b + c) + (after + rest);
    AtIn(before, a + b + c, after + rest);
    AtParts(s, p, a + b, c);
    AtParts(s, p, a, b);
  }

  /** A letter that announces a base, in either case. */
  predicate Announces(letter: char, base: nat) {
    || ((letter == 'H' || letter == 'h') && base == 16)
    || ((letter == 'Q' || letter == 'q') && base == 8)
    || ((letter == 'B' || letter == 'b') && base == 2)
  }

  lemma BasedRun(s: string, p: nat, t: string, n: nat, base: nat)
    requires base in {2, 8, 16} && AllDigits(t, base) && At(s, p, t) && n == p + |t|
    requires n < |s| ==> DigitValue(s[n]) >= base
    ensures Run(s, p, ClassOf(base)) == n
  {
    AtIndex(s, p, t);
    forall i | 0 <= i < |t| ensures In(t[i], ClassOf(base)) {
      DigitInClass(t[i], base);
    }
    if n < |s| {
      DigitInClass(s[n], base);
    }
    RunOver(s, p, t, ClassOf(base));
  }

  /** Digits behind a base letter are an element; the prefix is not part of its token. */
  lemma BasedElement(s: string, p: nat, letter: char, base: nat, t: string, n: nat, w: nat)
    requires Announces(letter, base) && t != "" && AllDigits(t, base) && At(s, p, ['#', letter] + t)
    requires n == p + 2 + |t| && Bare(s, n, w)
    ensures FirstFrom(0, s, p) == Parsed(n, Token(KindOf(base), p + 2, |t|), n - p) && Run(s, p, Blank) == p
  {
    AtParts(s, p, ['#', letter], t);
    AtIndex(s, p, ['#', letter]);
    assert s[p] == '#' && s[p + 1] == letter;
    BareNoDigit(s, n, w, base);
    BasedRun(s, p + 2, t, n, base);
    assert Try(0, s, p) == Parsed(n, Token(KindOf(base), p + 2, |t|), n - p);
  }

  lemma BareNoDigit(s: string, n: nat, w: nat, base: nat)
    requires Bare(s, n, w) && base <= 16
    ensures n < |s| ==> DigitValue(s[n]) >= base
  {
    if n == w < |s| {
      assert s[n] == s[w..][0];
      SeparatorNoDigit(s[w..], base);
    }
  }
}
