/** What `SCPI_ParamInt32` makes of a number as it can be written: every base, sign, fraction and exponent. */
module IntParameters {
  import opened Base
  import opened Lexer
  import opened Scanner
  import opened IntegerText
  import opened Numbers
  import opened Grammar
  import opened Results
  import opened Reader
  import opened Parameters
  import opened IntArrays

  /** Digits behind a base letter are one token; the prefix is not part of it. */
  lemma BasedIsToken(letter: char, base: nat, t: string, rest: string)
    requires Announces(letter, base) && t != "" && AllDigits(t, base) && Separated(rest)
    ensures var s := ['#', letter] + t + rest;
      ParseData(s, 0) == Parsed(2 + |t|, Token(KindOf(base), 2, |t|), 2 + |t|)
  {
    var s := ['#', letter] + t + rest;
    assert s == "" + (['#', letter] + t) + rest;
    AtIn("", ['#', letter] + t, rest);
    BareIn(['#', letter] + t, "", rest);
    assert ['#', letter] + t + "" == ['#', letter] + t;
    BasedElement(s, 0, letter, base, t, 2 + |t|, 2 + |t|);
    BareEnd(s, 2 + |t|, 2 + |t|);
    ParseDataIsFirst(s, 0, Parsed(2 + |t|, Token(KindOf(base), 2, |t|), 2 + |t|));
  }

  /** The greatest word that is at most `v`. */
  function CutToWord(v: nat): nat {
    if v <= 0xffff_ffff then v else 0xffff_ffff
  }

  lemma BasedValue(letter: char, base: nat, t: string, tail: string)
    requires Announces(letter, base) && t != "" && AllDigits(t, base) && Separated(tail)
    ensures Convert(['#', letter] + t + tail, Token(KindOf(base), 2, |t|)) == Some(AsInt32(CutToWord(Value(t, base))))
  {
    assert (['#', letter] + t + tail)[2..] == t + tail;
    SubjectOfDigits(t, tail, base);
  }

  lemma OneParameter(buf: string, token: Token, pos: nat, ret: nat)
    requires buf != "" && ParseData(buf, 0) == Parsed(pos, token, ret) && token.kind != UNKNOWN
    ensures ReadParameter(Of(buf), 0, 0) == Got(token, pos)
  {
  }

  /**
   Digits of any number behind a base letter in either case: the value, at most 2^32 - 1, is read as a signed word.
   */
  lemma BasedParameter(letter: char, base: nat, t: string, tail: string, mandatory: bool)
    requires Announces(letter, base) && t != "" && AllDigits(t, base) && Separated(tail)
    ensures var buf := ['#', letter] + t;
      ReadInt32(buf, buf + tail, 0, 0, mandatory) == IntValue(AsInt32(CutToWord(Value(t, base))), |buf|)
  {
    var buf := ['#', letter] + t;
    BasedIsToken(letter, base, t, "");
    assert buf + "" == buf;
    OneParameter(buf, Token(KindOf(base), 2, |t|), 2 + |t|, 2 + |t|);
    BasedValue(letter, base, t, tail);
  }

  /** Hexadecimal digits count the same in either case. */
  lemma EitherCase(i: nat)
    requires i < 6
    ensures DigitValue("ABCDEF"[i]) == DigitValue("abcdef"[i]) == 10 + i
  {
  }

  /** The nearest 32-bit number. */
  function Clamped(v: int): int {
    if v > 0x7fff_ffff then 0x7fff_ffff else if v < -0x8000_0000 then -0x8000_0000 else v
  }

  function Signed(sign: string, v: nat): int {
    var i: int := v;
    if sign == "-" then -i else i
  }

  /** The digits in front of the point, and what follows them. */
  lemma WholeEnds(s: string, x: Numeric, tail: string)
    requires x.Valid() && s == x.Text() + tail && Separated(tail)
    ensures var m := x.number; var j := |m.sign|; var e := j + |m.whole|;
      && At(s, 0, m.sign) && At(s, j, m.whole) && e <= |s| && NoDigit(s, e)
      && s != "" && !IsSpace(s[0]) && SkipSign(s, 0) == j && (Sees(s, 0, '-') <==> m.sign == "-")
  {
    var m := x.number;
    assert s == "" + x.Text() + tail;
    AtIn("", x.Text(), tail);
    NumericParts(s, 0, x);
    NumberParts(s, 0, m);
    PartBegins(s, 0, m.sign);
    NumberBegins(s, 0, m);
    SignOver(s, 0, m.sign);
    WholeBehind(s, x, tail);
  }

  /** Behind the digits in front of the point no digit follows. */
  lemma WholeBehind(s: string, x: Numeric, tail: string)
    requires x.Valid() && s == x.Text() + tail && Separated(tail) && At(s, 0, x.Text())
    ensures |x.number.sign| + |x.number.whole| <= |s| && NoDigit(s, |x.number.sign| + |x.number.whole|)
  {
    NumericParts(s, 0, x);
    NumberParts(s, 0, x.number);
    var n := |x.number.Text()|;
    if !x.number.point {
      if x.power.Some? {
        PowerFront(s, n, x.power.value);
        PartBegins(s, n, x.power.value.gap);
      } else if tail != "" {
        assert s[n] == tail[0];
      }
    }
  }

  lemma {:induction false} DigitsRun(s: string, i: nat, t: string)
    requires At(s, i, t) && IsNumeric(t) && NoDigit(s, i + |t|)
    ensures DigitsEnd(s, i, 10) == i + |t| && s[i..i + |t|] == t && AllDigits(t, 10)
  {
    AtIndex(s, i, t);
    assert s[i..i + |t|] == t;
    assert s == s + "";
    assert forall k | 0 <= k < |t| :: DigitValue(t[k]) < 10;
    DigitsEndAt(s, "", i, i + |t|, 10);
  }

  lemma SubjectIs(s: string, j: nat, e: nat, t: string)
    requires s != "" && !IsSpace(s[0]) && SkipSign(s, 0) == j && DigitsEnd(s, j, 10) == e <= |s| && s[j..e] == t
    ensures SubjectOf(s, 10) == if e > j then Subject(Sees(s, 0, '-'), Value(t, 10), e) else NoNumber
  {
    assert SkipSpace(s, 0) == 0;
  }

  /** The C library reads the digits in front of the point, and nothing when there are none. */
  lemma WholeIsRead(x: Numeric, tail: string)
    requires x.Valid() && Separated(tail)
    ensures var m := x.number; var r := StrToL(x.Text() + tail, 10);
      if m.whole == "" then r.1 == 0
      else r == (Clamped(Signed(m.sign, Value(m.whole, 10))), |m.sign| + |m.whole|)
  {
    var s, m := x.Text() + tail, x.number;
    WholeEnds(s, x, tail);
    DigitsRun(s, |m.sign|, m.whole);
    SubjectIs(s, |m.sign|, |m.sign| + |m.whole|, m.whole);
  }

  /**
   A decimal parameter, with or without fraction and exponent: its digits in front of the point are read, cut to 32
   bits, and the rest is passed over; without such digits nothing is read, and no error is reported.
   */
  lemma DecimalParameter(x: Numeric, tail: string, mandatory: bool)
    requires x.Valid() && Separated(tail)
    ensures var buf, m := x.Text(), x.number;
      ReadInt32(buf, buf + tail, 0, 0, mandatory) ==
      if m.whole == "" then Stop([]) else IntValue(Clamped(Signed(m.sign, Value(m.whole, 10))), |buf|)
  {
    var buf := x.Text();
    DecimalIsToken("", x, "", "");
    assert "" + buf + "" + "" == buf;
    NumericNotEmpty(x);
    OneParameter(buf, Token(DECIMAL_NUMERIC, 0, |buf|), |buf|, |buf|);
    WholeIsRead(x, tail);
    assert (buf + tail)[0..] == buf + tail;
  }

  lemma NumericNotEmpty(x: Numeric)
    requires x.Valid()
    ensures x.Text() != ""
  {
  }

  /** An exponent and a fraction are not seen: `1e3` and `1.9` read as 1, and `.5` not at all. */
  lemma ExponentNotSeen(mandatory: bool)
    ensures ReadInt32("1e3", "1e3", 0, 0, mandatory) == IntValue(1, 3)
    ensures ReadInt32("1.9", "1.9", 0, 0, mandatory) == IntValue(1, 3)
    ensures ReadInt32(".5", ".5", 0, 0, mandatory) == Stop([])
  {
    var one := Number("", "1", false, "");
    assert Value("1", 10) == 1 by {
      assert "1"[..0] == "";
    }
    var p := Power("", 'e', "", "", "3");
    assert Numeric(one, Some(p)).Text() == "1e3";
    DecimalParameter(Numeric(one, Some(p)), "", mandatory);
    assert Numeric(Number("", "1", true, "9"), None).Text() == "1.9";
    DecimalParameter(Numeric(Number("", "1", true, "9"), None), "", mandatory);
    assert Numeric(Number("", "", true, "5"), None).Text() == ".5";
    DecimalParameter(Numeric(Number("", "", true, "5"), None), "", mandatory);
    assert "1e3" + "" == "1e3" && "1.9" + "" == "1.9" && ".5" + "" == ".5";
  }

  /** What comes back of a word printed in a base, with a sign or without. */
  function ComesBack(val: nat, base: nat, sign: bool): int {
    if base == 10 && !sign && val > 0x7fff_ffff then 0x7fff_ffff
    else if val > 0x7fff_ffff then val - 0x1_0000_0000 else val
  }

  lemma PrintedBack(val: nat, base: nat, sign: bool, tail: string)
    requires val < TWO_TO_32 && base in {2, 8, 10, 16} && Separated(tail)
    ensures var buf := BasePrefix(base) + IntText(val, base, sign);
      ReadInt32(buf, buf + tail, 0, 0, true) == IntValue(ComesBack(val, base, sign), |buf|)
  {
    if base == 10 {
      DecimalBack(val, sign, tail);
    } else {
      DigitsAllDigits(val, base);
      DigitsValue(val, base);
      BasedParameter(if base == 2 then 'B' else if base == 8 then 'Q' else 'H', base, Digits(val, base), tail, true);
    }
  }

  lemma DecimalBack(val: nat, sign: bool, tail: string)
    requires val < TWO_TO_32 && Separated(tail)
    ensures var buf := BasePrefix(10) + IntText(val, 10, sign);
      ReadInt32(buf, buf + tail, 0, 0, true) == IntValue(ComesBack(val, 10, sign), |buf|)
  {
    if sign && val >= TWO_TO_31 {
      DigitsBack("-", TWO_TO_32 - val, tail);
    } else {
      DigitsBack("", val, tail);
      assert "" + Digits(val, 10) == Digits(val, 10);
    }
    assert "" + IntText(val, 10, sign) == IntText(val, 10, sign);
  }

  lemma DigitsBack(sign: string, v: nat, tail: string)
    requires IsSign(sign) && Separated(tail)
    ensures var buf := sign + Digits(v, 10);
      ReadInt32(buf, buf + tail, 0, 0, true) == IntValue(Clamped(Signed(sign, v)), |buf|)
  {
    var t := Digits(v, 10);
    var x := Numeric(Number(sign, t, false, ""), None);
    DigitsValue(v, 10);
    DigitsAreNumeric(v);
    assert x.Text() == sign + t;
    DecimalParameter(x, tail, true);
  }

  lemma DigitsAreNumeric(v: nat)
    ensures IsNumeric(Digits(v, 10))
  {
    var t := Digits(v, 10);
    DigitsAllDigits(v, 10);
    forall i | 0 <= i < |t| ensures '0' <= t[i] <= '9' {
      DigitInClass(t[i], 10);
    }
  }

  /**
   Printing a word and reading the parameter gives its signed value, in every base, whatever separator follows in
   memory; only a word above 2^31 - 1 printed in base 10 without a sign comes back as 2^31 - 1.
   */
  method NumberBack(val: nat, base: nat, sign: bool, tail: string) returns (r: Option<int>, errors: seq<int>)
    requires val < 0x1_0000_0000 && base in {2, 8, 10, 16} && Separated(tail)
    ensures errors == []
    ensures base != 10 || sign || val < 0x8000_0000 ==> r == Some(if val < 0x8000_0000 then val
      else val - 0x1_0000_0000)
    ensures base == 10 && !sign && val >= 0x8000_0000 ==> r == Some(0x7fff_ffff)
  {
    var results := new Results();
    var n := results.ResultUInt32BaseSign(val, base, sign);
    ghost var buf := BasePrefix(base) + IntText(val, base, sign);
    assert results.output == buf;
    var list := new ParameterList(results.output);
    ReaderReads(buf, buf + tail);
    PrintedBack(val, base, sign, tail);
    r := ParamInt32(list, tail, true, ReaderOf(buf, buf + tail));
    errors := list.errors;
  }
}
