/** An error report read back as the two parameters it is: the code, and the description with the text. */
module ErrorReports {
  import opened Arith
  import opened Base
  import opened Lexer
  import opened IntegerText
  import opened Numbers
  import opened Quoting
  import R = Results
  import opened Reader
  import opened Parameters
  import opened Texts
  import opened IntArrays
  import opened ErrorCodes
  import opened ErrorQueue
  import E = Errors

  /** The description with the device-dependent text behind a semicolon. */
  function Whole(parts: seq<string>): string
    requires 1 <= |parts| <= 3
  {
    if |parts| == 1 then parts[0]
    else if |parts| == 2 then parts[0] + ";" + parts[1]
    else parts[0] + ";" + parts[1] + parts[2]
  }

  /** How much of a text a report carries: the longest prefix whose doubled form has at most 255 characters. */
  ghost predicate Carried(all: string, k: nat) {
    k <= |all| && forall n | 0 <= n <= |all| :: n <= k <==> |Doubled(all[..n])| <= 255
  }

  /** A number, a comma and a quoted text. */
  predicate IsReport(t: string, code: int, text: string)
    requires IsInt32(code)
  {
    t == NumText(code) + ("," + Encoded(text))
  }

  lemma ReportIs(t: string, code: int, desc: string, info: Option<string>, parts: seq<string>) returns (k: nat)
    requires IsInt32(code) && t == R.ErrorText(code, desc, info)
    requires 1 <= |parts| <= 3 && desc == parts[0] && info == R.Info(parts)
    ensures Carried(Whole(parts), k) && IsReport(t, code, Whole(parts)[..k])
  {
    k := R.DescriptionLongest(desc, info);
    WholeIs(parts, desc + (if info.Some? then ";" + info.value else ""));
    Quoted(NumText(code), Doubled(Whole(parts)[..k]));
  }

  lemma WholeIs(parts: seq<string>, all: string)
    requires 1 <= |parts| <= 3
    requires all == parts[0] + (if R.Info(parts).Some? then ";" + R.Info(parts).value else "")
    ensures all == Whole(parts)
  {
    if |parts| == 3 {
      assert parts[0] + (";" + (parts[1] + parts[2])) == parts[0] + ";" + parts[1] + parts[2];
    }
  }

  lemma Quoted(number: string, text: string)
    ensures number + ",\"" + text + "\"" == number + ("," + ([QUOTE] + text + [QUOTE]))
  {
  }

  /** The code is read from the first parameter. */
  lemma CodeIsRead(t: string, code: int, text: string)
    requires IsInt32(code) && IsReport(t, code, text)
    ensures ReadInt32(t, t + "", 0, 0, true) == IntValue(code, |NumText(code)|)
    ensures ReadParameter(Of(t), 0, 0) == Got(Token(DECIMAL_NUMERIC, 0, |NumText(code)|), |NumText(code)|)
  {
    var more := "," + Encoded(text);
    assert t == "" + NumText(code) + more;
    ReadOneInt(t, "", code, more, "", 0, 0, true);
    ParameterAt("", code, more, 0, 0);
  }

  /** The quoted text is the second parameter, to the end, exactly when it is 7-bit. */
  lemma TextIsRead(t: string, code: int, text: string)
    requires IsInt32(code) && IsReport(t, code, text)
    ensures var n, r := |NumText(code)| + 1, ReadParameter(Of(t), |NumText(code)|, 1);
      if SevenBit(text) then r == Got(Token(DOUBLE_QUOTE, n, |t| - n), |t|) && t[n..] == Encoded(text)
      else r.BadData?
  {
    var before := NumText(code) + ",";
    var n := |before|;
    assert t == before + Encoded(text) + "";
    TextToken(before, text, "");
    ElementSpan(t, n);
    assert t[n - 1] == ',';
    ReadElement(Of(t), n - 1, 1, n);
  }

  /**
   What `SCPI_ResultError` appends, behind the delimiter of an earlier result, reads back: the code is the first
   parameter and the text, cut to 255 characters with its quotes doubled, the second and last, exactly when it is 7-bit.
   */
  method ReportBack(results: R.Results, code: int, parts: seq<string>, buffer: array<char>)
      returns (read: Option<int>, ok: bool, copyLen: nat, more: bool, errors: seq<int>, ghost k: nat)
    requires IsInt32(code) && 1 <= |parts| <= 3 && (forall p | p in parts :: NUL !in p) && buffer.Length >= 256
    modifies results, buffer
    ensures read == Some(code) && Carried(Whole(parts), k)
    ensures ok <==> SevenBit(Whole(parts)[..k])
    ensures ok ==> copyLen <= buffer.Length && buffer[..copyLen] == Whole(parts)[..k] && !more && errors == [-109]
    ensures !ok ==> errors == [-151]
  {
    var start := |results.output| + if results.outputCount > 0 then 1 else 0;
    ghost var front := results.output + results.Delimiter();
    var n := results.ResultError(code, parts);
    var t := results.output[start..];
    assert t == R.ErrorText(code, parts[0], R.Info(parts)) by {
      assert results.output == front + R.ErrorText(code, parts[0], R.Info(parts));
    }
    k := ReportIs(t, code, parts[0], R.Info(parts), parts);
    read, ok, copyLen, more, errors := ReadReport(t, code, Whole(parts)[..k], buffer);
  }

  lemma CarriedFits(all: string, k: nat)
    requires Carried(all, k)
    ensures |Encoded(all[..k])| <= 257
  {
  }

  /** A host reads the code and the text, and looks for a third parameter. */
  method ReadReport(t: string, ghost code: int, ghost text: string, buffer: array<char>)
      returns (read: Option<int>, ok: bool, copyLen: nat, more: bool, errors: seq<int>)
    requires IsInt32(code) && IsReport(t, code, text) && |Doubled(text)| <= 255 && buffer.Length >= 256
    modifies buffer
    ensures read == Some(code) && (ok <==> SevenBit(text))
    ensures ok ==> copyLen <= buffer.Length && buffer[..copyLen] == text && !more && errors == [-109]
    ensures !ok ==> errors == [-151]
  {
    var list := new ParameterList(t);
    read := ReadCode(list, code, text);
    ok, copyLen := ReadText(list, code, text, buffer);
    errors, more := list.errors, false;
    if ok {
      var token;
      more, token := list.Parameter(true);
      errors := list.errors;
    }
  }

  method ReadCode(list: ParameterList, ghost code: int, ghost text: string) returns (read: Option<int>)
    requires IsInt32(code) && IsReport(list.state.buffer, code, text)
    requires list.state.pos == 0 && list.inputCount == 0 && list.errors == []
    modifies list, list.state
    ensures read == Some(code)
    ensures list.state.InRange() && list.state.pos == |NumText(code)| && list.inputCount == 1 && list.errors == []
  {
    ghost var t := list.state.buffer;
    ReaderReads(t, t + "");
    CodeIsRead(t, code, text);
    read := ParamInt32(list, "", true, ReaderOf(t, t + ""));
  }

  method ReadText(list: ParameterList, ghost code: int, ghost text: string, buffer: array<char>)
      returns (ok: bool, copyLen: nat)
    requires IsInt32(code) && IsReport(list.state.buffer, code, text) && |Doubled(text)| <= 255 && buffer.Length >= 256
    requires list.state.InRange() && list.state.pos == |NumText(code)| && list.inputCount == 1 && list.errors == []
    modifies list, list.state, buffer
    ensures ok <==> SevenBit(text)
    ensures ok ==> copyLen <= buffer.Length && buffer[..copyLen] == text
    ensures if ok then list.state.pos == |list.state.buffer| && list.errors == [] else list.errors == [-151]
    ensures list.state.InRange()
  {
    ghost var t := list.state.buffer;
    TextIsRead(t, code, text);
    TextRoundTrip(text, buffer.Length);
    ok, copyLen := ParamCopyText(list, buffer, true);
    if ok {
      assert t[|NumText(code)| + 1..|t|] == t[|NumText(code)| + 1..];
    }
  }

  /** The answer to `SYSTem:ERRor?`. */
  method AnswerError(errors: E.ErrorContext) returns (t: string, ghost k: nat)
    requires errors.Valid()
    modifies errors`queue, errors.fifo, errors.heap, errors.heap.data, errors.regs
    ensures errors.Valid() && errors.Abs() == Apply(old(errors.Abs()), Next)
    ensures var a := E.Oldest(old(errors.queue)); Carried(Described(a), k) && IsReport(t, a.code, Described(a)[..k])
  {
    ghost var a := E.Oldest(errors.queue);
    var results := new R.Results();
    errors.SystemErrorNextQ(results);
    t := results.output;
    k := AnswerIs(t, a);
  }

  /** The description of an error with the text pushed with it. */
  function Described(a: Err): string {
    E.ErrorTranslate(a.code) + (if a.text.Some? then ";" + a.text.value else "")
  }

  lemma AnswerIs(t: string, a: Err) returns (k: nat)
    requires t == E.Report(a)
    ensures Carried(Described(a), k) && IsReport(t, a.code, Described(a)[..k])
  {
    k := PartsReport(t, a.code, E.ErrorTranslate(a.code), a.text, Described(a));
  }

  lemma PartsReport(t: string, code: int, desc: string, text: Option<string>, all: string) returns (k: nat)
    requires IsInt32(code) && t == R.ErrorText(code, desc, text)
    requires all == desc + (if text.Some? then ";" + text.value else "")
    ensures Carried(all, k) && IsReport(t, code, all[..k])
  {
    var parts := if text.Some? then [desc, text.value] else [desc];
    assert Whole(parts) == all;
    k := ReportIs(t, code, desc, text, parts);
  }

  /**
   `SYSTem:ERRor?` on an empty answer reads back as the code of the oldest error, with its description and the text
   that was pushed with it.
   */
  method NextErrorBack(errors: E.ErrorContext, buffer: array<char>)
      returns (read: Option<int>, ok: bool, copyLen: nat, more: bool, ghost k: nat)
    requires errors.Valid() && buffer.Length >= 256 && errors.heap.data != buffer
    modifies errors`queue, errors.fifo, errors.heap, errors.heap.data, errors.regs, buffer
    ensures errors.Valid() && errors.Abs() == Apply(old(errors.Abs()), Next)
    ensures var a := E.Oldest(old(errors.queue));
      && read == Some(a.code) && Carried(Described(a), k) && (ok <==> SevenBit(Described(a)[..k]))
      && (ok ==> copyLen <= buffer.Length && buffer[..copyLen] == Described(a)[..k] && !more)
    ensures read == Some(if old(errors.queue) == [] then 0 else old(errors.queue)[0].code)
  {
    ghost var a := E.Oldest(errors.queue);
    var t;
    t, k := AnswerError(errors);
    CarriedFits(Described(a), k);
    var codes;
    read, ok, copyLen, more, codes := ReadReport(t, a.code, Described(a)[..k], buffer);
  }

  lemma OneMoreDigit(v: nat, d: nat)
    requires v > 0 && d < 10
    ensures Digits(10 * v + d, 10) == Digits(v, 10) + [DigitChar(d)]
  {
    DivModUnique(v, d, 10);
  }

  lemma OneDigit(v: nat)
    requires v < 10
    ensures Digits(v, 10) == [DigitChar(v)]
  {
  }

  lemma TwoDigits(h: nat, d: nat, v: nat)
    requires 0 < h < 10 && d < 10 && v == 10 * h + d
    ensures Digits(v, 10) == [DigitChar(h), DigitChar(d)]
  {
    OneDigit(h);
    OneMoreDigit(h, d);
  }

  lemma ThreeDigits(h: nat, d: nat, u: nat, v: nat)
    requires 0 < h < 10 && d < 10 && u < 10 && v == 100 * h + 10 * d + u
    ensures Digits(v, 10) == [DigitChar(h), DigitChar(d), DigitChar(u)]
  {
    TwoDigits(h, d, 10 * h + d);
    OneMoreDigit(10 * h + d, u);
  }

  lemma PlainAnswer(code: Code, num: string, desc: string)
    requires NumText(code) == num && E.ErrorTranslate(code) == desc && QUOTE !in desc && |desc| <= 255
    ensures E.Report(Err(code, None)) == num + ",\"" + desc + "\""
  {
    FitPlain(desc, 255);
    DoubledPlain(desc);
    assert desc + "" == desc && desc[..|desc|] == desc;
  }

  /** The errors of the minimal list by the digits of their codes. */
  predicate Named(h: nat, d: nat, u: nat, desc: string) {
    || (h == 1 && d == 0 && u == 1 && desc == "Invalid character")
    || (h == 1 && d == 0 && u == 3 && desc == "Invalid separator")
    || (h == 1 && d == 0 && u == 4 && desc == "Data type error")
    || (h == 1 && d == 0 && u == 8 && desc == "Parameter not allowed")
    || (h == 1 && d == 0 && u == 9 && desc == "Missing parameter")
    || (h == 1 && d == 1 && u == 3 && desc == "Undefined header")
    || (h == 1 && d == 3 && u == 1 && desc == "Invalid suffix")
    || (h == 1 && d == 3 && u == 8 && desc == "Suffix not allowed")
    || (h == 1 && d == 5 && u == 1 && desc == "Invalid string data")
    || (h == 1 && d == 7 && u == 0 && desc == "Expression error")
    || (h == 2 && d == 0 && u == 0 && desc == "Execution error")
    || (h == 2 && d == 2 && u == 4 && desc == "Illegal parameter value")
    || (h == 3 && d == 1 && u == 0 && desc == "System error")
    || (h == 3 && d == 5 && u == 0 && desc == "Queue overflow")
    || (h == 3 && d == 6 && u == 3 && desc == "Input buffer overrun")
  }

  lemma NamedIs(h: nat, d: nat, u: nat, desc: string)
    requires Named(h, d, u, desc)
    ensures 0 < h < 4 && d < 10 && u < 10
    ensures E.ErrorTranslate(-(100 * h + 10 * d + u)) == desc && |desc| <= 255
  {
  }

  lemma NamedPlain(h: nat, d: nat, u: nat, desc: string)
    requires Named(h, d, u, desc)
    ensures QUOTE !in desc
  {
  }

  /** The answer to `SYSTem:ERRor?` for an error without a text: its code, and its description in quotes. */
  lemma NamedAnswer(h: nat, d: nat, u: nat, desc: string)
    requires Named(h, d, u, desc)
    ensures h < 10 && d < 10 && u < 10 && E.Report(Err(-(100 * h + 10 * d + u), None)) ==
      ['-', DigitChar(h), DigitChar(d), DigitChar(u)] + ",\"" + desc + "\""
  {
    NamedIs(h, d, u, desc);
    NamedPlain(h, d, u, desc);
    ThreeDigits(h, d, u, 100 * h + 10 * d + u);
    CodeText(100 * h + 10 * d + u, [DigitChar(h), DigitChar(d), DigitChar(u)]);
    PlainAnswer(-(100 * h + 10 * d + u), ['-', DigitChar(h), DigitChar(d), DigitChar(u)], desc);
  }

  /** The answer when there is no error. */
  lemma NoErrorAnswer()
    ensures E.Report(E.Oldest([])) == "0,\"No error\""
  {
    OneDigit(0);
    SignedText(0);
    PlainAnswer(0, "0", "No error");
    assert "0" + ",\"" + "No error" + "\"" == "0,\"No error\"";
  }

  lemma CodeText(code: int, t: string)
    requires 0 < code < 0x8000 && Digits(code, 10) == t
    ensures NumText(-code) == ['-'] + t
  {
    SignedText(-code);
  }
}
