/** Quoted text: what `SCPI_ResultText` writes is one string token, and `SCPI_ParamCopyText` recovers the text. */
module Texts {
  import opened Base
  import opened Lexer
  import opened Scanner
  import opened Quoting
  import opened Results
  import opened Reader
  import opened Parameters
  import opened ErrorCodes

  /** What `SCPI_ResultText` writes for a text. */
  function Encoded(text: string): string {
    [QUOTE] + Doubled(text) + [QUOTE]
  }

  predicate SevenBit(text: string) {
    forall i | 0 <= i < |text| :: text[i] as int < 128
  }

  /**
   The closing quote is found right behind the doubled text if all of it is 7-bit; else the lexer stops at another
   character.
   */
  lemma {:induction false} QuoteEndOf(before: string, text: string, rest: string)
    requires rest == "" || rest[0] != QUOTE
    ensures var s, p := before + Doubled(text) + [QUOTE] + rest, |before|;
      if SevenBit(text) then QuoteEnd(s, p, QUOTE) == p + |Doubled(text)|
      else QuoteEnd(s, p, QUOTE) < |s| && s[QuoteEnd(s, p, QUOTE)] != QUOTE
    decreases |text|
  {
    var s, p := before + Doubled(text) + [QUOTE] + rest, |before|;
    if text == "" {
      assert s[p] == QUOTE;
      assert p + 1 < |s| ==> s[p + 1] == rest[0];
    } else {
      var first := if text[0] == QUOTE then [QUOTE, QUOTE] else [text[0]];
      assert s == (before + first) + Doubled(text[1..]) + [QUOTE] + rest;
      assert SevenBit(text) <==> IsAscii(text[0]) && SevenBit(text[1..]) by {
        assert forall i | 0 <= i < |text| - 1 :: text[1..][i] == text[i + 1];
      }
      assert s[p] == text[0] && (text[0] == QUOTE ==> s[p + 1] == QUOTE);
      QuoteEndOf(before + first, text[1..], rest);
    }
  }

  /** At a double quote only the string recogniser can succeed. */
  lemma AtQuote(s: string, p: nat)
    requires p < |s| && s[p] == QUOTE
    ensures var q := QuoteEnd(s, p + 1, QUOTE);
      FirstFrom(0, s, p) == if Sees(s, q, QUOTE) then Parsed(q + 1, Token(DOUBLE_QUOTE, p, q + 1 - p), q + 1 - p)
        else Parsed(p, Token(UNKNOWN, p, 0), 0)
  {
    assert Try(0, s, p) == Parsed(p, Token(UNKNOWN, p, 0), 0);
    assert Try(1, s, p) == Parsed(p, Token(UNKNOWN, p, 0), 0);
    assert Run(s, p, Digit) == p;
    assert Decimal(s, p) == p;
    assert Try(2, s, p) == Parsed(p, Token(UNKNOWN, p, 0), 0);
    assert FirstFrom(0, s, p) == FirstFrom(3, s, p);
    assert Try(4, s, p) == Parsed(p, Token(UNKNOWN, p, 0), 0);
    assert Try(5, s, p) == Parsed(p, Token(UNKNOWN, p, 0), 0);
  }

  /** A text is one string token, wherever it stands, exactly when all its characters are 7-bit. */
  lemma TextToken(before: string, text: string, rest: string)
    requires rest == "" || rest[0] != QUOTE
    ensures var d := ParseData(before + Encoded(text) + rest, |before|);
      if SevenBit(text) then d.token == Token(DOUBLE_QUOTE, |before|, |Encoded(text)|) else d.token.kind == UNKNOWN
  {
    var s, p := before + Encoded(text) + rest, |before|;
    TextQuotes(before, text, rest);
    assert Run(s, p, Blank) == p;
    AtQuote(s, p);
    var d := FirstFrom(0, s, p);
    ParseDataBy(s, p, p, d, Run(s, d.pos, Blank));
  }

  /** Where the quotes of an encoded text are. */
  lemma TextQuotes(before: string, text: string, rest: string)
    requires rest == "" || rest[0] != QUOTE
    ensures var s, p, n := before + Encoded(text) + rest, |before|, |Doubled(text)|;
      && s[p] == QUOTE && s[p + 1 + n] == QUOTE
      && if SevenBit(text) then QuoteEnd(s, p + 1, QUOTE) == p + 1 + n
        else QuoteEnd(s, p + 1, QUOTE) < |s| && s[QuoteEnd(s, p + 1, QUOTE)] != QUOTE
  {
    var s := before + Encoded(text) + rest;
    assert s == (before + [QUOTE]) + Doubled(text) + [QUOTE] + rest;
    QuoteEndOf(before + [QUOTE], text, rest);
  }

  /** The loop of `SCPI_ParamCopyText`: from position `i` of the token on, as far as the buffer of `n` bytes allows. */
  function Copied(token: string, quote: char, n: nat, i: nat): (r: string)
    requires i >= 1
    ensures i - 1 <= n ==> i - 1 + |r| <= n
    decreases |token| - i
  {
    if i < |token| - 1 && i < n then
      [token[i]] + Copied(token, quote, n, if token[i] == quote then i + 2 else i + 1)
    else ""
  }

  /** How many characters of a text are copied when the first of them is looked for at `i`. */
  function Room(text: string, n: nat, i: nat, quote: char := QUOTE): (k: nat)
    ensures k <= |text|
  {
    if text == "" || i >= n then 0
    else 1 + Room(text[1..], n, if text[0] == quote then i + 2 else i + 1, quote)
  }

  lemma {:induction false} CopiedIs(before: string, text: string, n: nat, quote: char := QUOTE)
    requires before != ""
    ensures Copied(before + Doubled(text, quote) + [quote], quote, n, |before|) ==
      text[..Room(text, n, |before|, quote)]
    decreases |text|
  {
    if text != "" && |before| < n {
      var first := if text[0] == quote then [quote, quote] else [text[0]];
      assert before + Doubled(text, quote) + [quote] == (before + first) + Doubled(text[1..], quote) + [quote];
      CopiedIs(before + first, text[1..], n, quote);
    }
  }

  /** The last character is looked for at its place in the doubled text. */
  lemma {:induction false} RoomForAll(text: string, n: nat, i: nat, quote: char := QUOTE)
    requires text != ""
    ensures Room(text, n, i, quote) == |text| <==>
      i + |Doubled(text, quote)| - (if text[|text| - 1] == quote then 2 else 1) < n
  {
    if |text| > 1 {
      RoomForAll(text[1..], n, if text[0] == quote then i + 2 else i + 1, quote);
      assert Doubled(text[1..], quote) != [];
      LastCost(text[1..], quote);
    } else {
      assert text[1..] == "";
    }
  }

  lemma {:induction false} LastCost(text: string, quote: char := QUOTE)
    requires text != ""
    ensures |Doubled(text, quote)| >= if text[|text| - 1] == quote then 2 else 1
  {
    if |text| > 1 {
      LastCost(text[1..], quote);
    }
  }

  /**
   The text is recovered exactly when the buffer reaches the place of its last character; one less than the encoded
   length does.
   */
  lemma TextRoundTrip(text: string, n: nat, quote: char := QUOTE)
    ensures Copied([quote] + Doubled(text, quote) + [quote], quote, n, 1) == text <==>
      text == "" || |Doubled(text, quote)| + (if text[|text| - 1] == quote then 0 else 1) <= n
    ensures |Doubled(text, quote)| + 1 <= n ==> Copied([quote] + Doubled(text, quote) + [quote], quote, n, 1) == text
  {
    CopiedIs([quote], text, n, quote);
    if text != "" {
      RoomForAll(text, n, 1, quote);
      assert text[..Room(text, n, 1, quote)] == text <==> Room(text, n, 1, quote) == |text|;
    }
  }

  predicate IsQuoted(k: Token) {
    k.kind == SINGLE_QUOTE || k.kind == DOUBLE_QUOTE
  }

  function QuoteOf(k: Token): char {
    if k.kind == SINGLE_QUOTE then '\'' else QUOTE
  }

  lemma CopiedStep(token: string, quote: char, n: nat, i: nat)
    requires i >= 1 && i < |token| - 1 && i < n
    ensures Copied(token, quote, n, i) ==
      [token[i]] + Copied(token, quote, n, if token[i] == quote then i + 2 else i + 1)
  {
  }

  /** The copying loop of `SCPI_ParamCopyText`. */
  method CopyQuoted(token: string, quote: char, buffer: array<char>) returns (to: nat)
    modifies buffer
    ensures to <= buffer.Length && buffer[..to] == Copied(token, quote, buffer.Length, 1)
    ensures to < buffer.Length ==> buffer[to] == NUL
  {
    ghost var goal := Copied(token, quote, buffer.Length, 1);
    var from: nat := 1;
    to := 0;
    while from < |token| - 1
      invariant 1 <= from && to < from && to <= buffer.Length
      invariant goal == buffer[..to] + Copied(token, quote, buffer.Length, from)
      decreases |token| - from
    {
      if from >= buffer.Length {
        break;
      }
      CopiedStep(token, quote, buffer.Length, from);
      buffer[to] := token[from];
      to := to + 1;
      if token[from] == quote {
        from := from + 1;
      }
      from := from + 1;
    }
    if to < buffer.Length {
      buffer[to] := NUL;
    }
  }

  lemma ReadWithin(buf: string, p: nat, count: nat)
    requires p <= |buf|
    ensures var r := ReadParameter(Of(buf), p, count); r.Got? ==> r.token.ptr + r.token.len <= |buf|
  {
    OfSane(buf);
  }

  /** `SCPI_ParamCopyText`. */
  method ParamCopyText(list: ParameterList, buffer: array<char>, mandatory: bool) returns (ok: bool, copyLen: nat)
    requires list.state.InRange()
    modifies list, list.state, buffer
    ensures list.state.InRange() && copyLen <= buffer.Length
    ensures var r := ReadParameter(Of(list.state.buffer), old(list.state.pos), old(list.inputCount));
      && ok == (r.Got? && IsQuoted(r.token))
      && (ok ==>
        && r.token.ptr + r.token.len <= |list.state.buffer|
        && buffer[..copyLen] ==
          Copied(list.state.buffer[r.token.ptr..r.token.ptr + r.token.len], QuoteOf(r.token), buffer.Length, 1)
        && (copyLen < buffer.Length ==> buffer[copyLen] == NUL))
      && (!ok ==> copyLen == 0 && buffer[..] == old(buffer[..]))
      && list.state.pos == PosAfter(r, old(list.state.pos)) && list.inputCount == CountAfter(r, old(list.inputCount))
      && list.errors == old(list.errors) + if ok then [] else if r.Got? then [DATA_TYPE_ERROR]
        else ReadErrors(r, mandatory)
  {
    ReadWithin(list.state.buffer, list.state.pos, list.inputCount);
    copyLen := 0;
    var token;
    ok, token := list.Parameter(mandatory);
    if ok {
      if token.kind == SINGLE_QUOTE || token.kind == DOUBLE_QUOTE {
        var text := list.state.buffer[token.ptr..token.ptr + token.len];
        copyLen := CopyQuoted(text, if token.kind == SINGLE_QUOTE then '\'' else '"', buffer);
      } else {
        list.errors := list.errors + [DATA_TYPE_ERROR];
        ok := false;
      }
    }
  }

  /** A printed text is the only parameter of its data exactly when it is 7-bit. */
  lemma EncodedParameter(text: string)
    ensures var data := Encoded(text); var r := ReadParameter(Of(data), 0, 0);
      if SevenBit(text) then r == Got(Token(DOUBLE_QUOTE, 0, |data|), |data|) else r.BadData?
  {
    var data := Encoded(text);
    assert "" + data + "" == data;
    TextToken("", text, "");
    ElementSpan(data, 0);
  }

  /**
   Printing a text and copying the parameter gives the text, for every 7-bit text and every buffer that reaches its
   end.
   */
  method CopyBack(text: string, buffer: array<char>) returns (ok: bool, copyLen: nat)
    requires NUL !in text
    modifies buffer
    ensures ok <==> SevenBit(text)
    ensures copyLen <= buffer.Length
    ensures ok ==> (buffer[..copyLen] == text <==>
      text == "" || |Doubled(text)| + (if text[|text| - 1] == QUOTE then 0 else 1) <= buffer.Length)
  {
    var results := new Results();
    var n := results.ResultText(text);
    assert results.output == Encoded(text);
    var list := new ParameterList(results.output);
    EncodedParameter(text);
    TextRoundTrip(text, buffer.Length);
    ok, copyLen := ParamCopyText(list, buffer, true);
    assert Encoded(text)[0..|Encoded(text)|] == Encoded(text);
  }
}
