/** Writing responses: the `SCPI_Result*` functions of `parser.c`. */
module Results {
  import opened Base
  import opened IntegerText
  import opened Quoting

  /** SCPI_STD_ERROR_DESC_MAX_STRING_LENGTH. */
  const DESCRIPTION_MAX := 255

  /**
   What is written between the quotes of an error report: description, semicolon, device-dependent text, cut to the
   limit.
   */
  function Description(desc: string, info: Option<string>): string {
    var all := desc + (if info.Some? then ";" + info.value else "");
    Doubled(all[..Fit(all, DESCRIPTION_MAX)])
  }

  /** The whole error report. */
  function ErrorText(code: int, desc: string, info: Option<string>): string
    requires -TWO_TO_31 <= code < TWO_TO_31
  {
    IntText(code % TWO_TO_32, 10, true) + ",\"" + Description(desc, info) + "\""
  }

  /**
   The text between the quotes is the doubled form of the longest prefix whose doubled form keeps within the limit:
   every prefix at most as long keeps within it, and every longer one exceeds it.
   */
  lemma DescriptionLongest(desc: string, info: Option<string>) returns (k: nat)
    ensures var all := desc + (if info.Some? then ";" + info.value else "");
      && k <= |all| && Description(desc, info) == Doubled(all[..k])
      && forall n | 0 <= n <= |all| :: n <= k <==> |Doubled(all[..n])| <= DESCRIPTION_MAX
  {
    var all := desc + (if info.Some? then ";" + info.value else "");
    k := Fit(all, DESCRIPTION_MAX);
    forall n | 0 <= n <= |all|
      ensures n <= k <==> |Doubled(all[..n])| <= DESCRIPTION_MAX
    {
      FitLongest(all, DESCRIPTION_MAX, n);
    }
  }

  /** The character does not occur in the given range. */
  predicate Free(s: string, c: char, from: nat, to: int)
    requires to <= |s|
  {
    forall i | from <= i < to :: s[i] != c
  }

  /** `strnpbrk` for a set of one character: where it first occurs among `n` characters from `from`. */
  method Find(s: string, from: nat, n: nat, c: char) returns (k: Option<nat>)
    requires from + n <= |s| && NUL !in s
    ensures k.Some? ==> k.value < n && s[from + k.value] == c && Free(s, c, from, from + k.value)
    ensures k.None? ==> Free(s, c, from, from + n)
  {
    for i := 0 to n
      invariant Free(s, c, from, from + i)
    {
      if s[from + i] == c {
        return Some(i);
      }
    }
    return None;
  }

  class Results {
    var output: string
    var outputCount: nat
    var arbitraryRemaining: nat
    var errors: seq<int>

    constructor ()
      ensures output == "" && outputCount == 0 && arbitraryRemaining == 0 && errors == []
    {
      output, outputCount, arbitraryRemaining, errors := "", 0, 0, [];
    }

    /** `writeData`, with the interface callback as an append: how many bytes it took. */
    method Write(data: string) returns (n: nat)
      modifies this`output
      ensures output == old(output) + data && n == |data|
    {
      output, n := output + data, |data|;
    }

    /** What `writeDelimiter` writes before a result. */
    ghost function Delimiter(): string
      reads this
    {
      if outputCount > 0 then "," else ""
    }

    method WriteDelimiter() returns (n: nat)
      modifies this`output
      ensures output == old(output + Delimiter()) && n == |old(Delimiter())|
    {
      n := 0;
      if outputCount > 0 {
        n := Write(",");
      }
    }

    /** `resultUInt32BaseSign`. */
    method ResultUInt32BaseSign(val: nat, base: int, sign: bool) returns (result: nat)
      requires val < TWO_TO_32
      modifies this`output, this`outputCount
      ensures |output| == |old(output)| + result
      ensures output == old(output + Delimiter()) + BasePrefix(base) + IntText(val, base, sign)
      ensures outputCount == old(outputCount) + 1
    {
      var buffer := new char[33];
      var len := UInt32ToStrBaseSign(val, buffer, buffer.Length, base, sign);
      result := WriteDelimiter();
      var n := Write(BasePrefix(base));
      IntTextLength(val, base, sign);
      var m := Write(buffer[..len]);
      result := result + n + m;
      outputCount := outputCount + 1;
    }

    /** `SCPI_ResultInt32`; a negative number arrives as its 32-bit word. */
    method ResultInt32(val: int) returns (result: nat)
      requires -TWO_TO_31 <= val < TWO_TO_31
      modifies this`output, this`outputCount
      ensures |output| == |old(output)| + result
      ensures output == old(output + Delimiter()) + IntText(val % TWO_TO_32, 10, true)
      ensures outputCount == old(outputCount) + 1
    {
      result := ResultUInt32BaseSign(val % TWO_TO_32, 10, true);
    }

    /** Writes a run that ends in a quote, and the second quote; `body` is what stands for `data[..at]`. */
    method WriteThroughQuote(data: string, at: nat, step: nat, ghost head: string, ghost body: string)
      returns (n: nat, ghost body': string)
      requires 0 < step && at + step <= |data| && data[at + step - 1] == QUOTE && Free(data, QUOTE, at, at + step - 1)
      requires output == head + body && body == Doubled(data[..at])
      modifies this`output
      ensures output == head + body' && body' == Doubled(data[..at + step])
      ensures |body'| == |body| + step + 1 == |body| + n
    {
      StepPrefix(data, at, step);
      n := Write(data[at..at + step]);
      var m := Write([QUOTE]);
      n := n + m;
      body' := body + data[at..at + step] + [QUOTE];
    }

    /** Writes a run without quotes. */
    method WritePlain(data: string, at: nat, len: nat, ghost head: string, ghost body: string)
      returns (n: nat, ghost body': string)
      requires at + len <= |data| && Free(data, QUOTE, at, at + len)
      requires output == head + body && body == Doubled(data[..at])
      modifies this`output
      ensures output == head + body' && body' == Doubled(data[..at + len])
      ensures |body'| == |body| + len && n == len
    {
      PlainTail(data, at, len);
      n := Write(data[at..at + len]);
      body' := body + data[at..at + len];
    }

    /** `SCPI_ResultText`. */
    method ResultText(data: string) returns (result: nat)
      requires NUL !in data
      modifies this`output, this`outputCount
      ensures output == old(output + Delimiter()) + [QUOTE] + Doubled(data) + [QUOTE]
      ensures outputCount == old(outputCount) + 1 && |output| == |old(output)| + result
    {
      result := WriteDelimiter();
      var n := Write([QUOTE]);
      result := result + n;
      ghost var head, body, before := output, "", result;
      var at := 0;
      var quote: Option<nat> := Find(data, 0, |data|, QUOTE);
      while quote.Some?
        invariant at <= |data| && result == before + |body|
        invariant output == head + body && body == Doubled(data[..at]) && outputCount == old(outputCount)
        invariant quote.Some? ==> (at + quote.value < |data| && data[at + quote.value] == QUOTE
                                   && Free(data, QUOTE, at, at + quote.value))
        invariant quote.None? ==> Free(data, QUOTE, at, |data|)
        decreases |data| - at
      {
        var next := at + quote.value + 1;
        n, body := WriteThroughQuote(data, at, next - at, head, body);
        result := result + n;
        at := next;
        quote := Find(data, at, |data| - at, QUOTE);
      }
      n, body := WritePlain(data, at, |data| - at, head, body);
      assert data[..|data|] == data;
      var m := Write([QUOTE]);
      result := result + n + m;
      outputCount := outputCount + 1;
    }

    /** One turn of the part loop of `SCPI_ResultError`: writes what fits of one part and returns the budget left. */
    method WritePart(data: string, budget0: nat) returns (budget: nat, n: nat)
      requires NUL !in data
      modifies this`output
      ensures output == old(output) + Doubled(data[..Fit(data, budget0)])
      ensures budget <= budget0
      ensures budget == if Fit(data, budget0) == |data| then budget0 - |Doubled(data)| else 0
      ensures |output| == |old(output)| + n
    {
      budget, n := budget0, 0;
      ghost var fit, head, body := Fit(data, budget), output, "";
      var at: nat, len: nat, more := 0, |data|, true;
      if len > budget {
        len := budget;
      }
      assert data[0..] == data && data[..0] == "";
      while more
        invariant at <= |data| && budget <= budget0 && output == head + body && body == Doubled(data[..at])
        invariant n == |body|
        invariant more ==> len == Min(|data| - at, budget)
        invariant more ==> budget == budget0 - |body| && fit == at + Fit(data[at..], budget)
        invariant !more ==> Settled(data, at, len, budget, budget0 - |body|, fit)
        decreases more, |data| - at
      {
        var k;
        at, len, budget, more, k, body := PartTurn(data, at, len, budget, head, body);
        n := n + k;
      }
      var k;
      k, body := WritePlain(data, at, len, head, body);
      n := n + k;
      assert data[..|data|] == data;
      budget := budget - len;
    }

    /** One turn of the loop over the quotes of a part: through the next quote, or to what is left without one. */
    method PartTurn(data: string, at0: nat, len0: nat, budget0: nat, ghost head: string, ghost body0: string)
        returns (at: nat, len: nat, budget: nat, more: bool, n: nat, ghost body: string)
      requires NUL !in data && at0 <= |data| && len0 == Min(|data| - at0, budget0)
      requires output == head + body0 && body0 == Doubled(data[..at0])
      modifies this`output
      ensures at0 <= at <= |data| && budget <= budget0 && output == head + body && body == Doubled(data[..at])
      ensures |body| == |body0| + n
      ensures more ==>
        && at0 < at && len == Min(|data| - at, budget) && budget == budget0 - (|body| - |body0|)
        && at0 + Fit(data[at0..], budget0) == at + Fit(data[at..], budget)
      ensures !more ==>
        Settled(data, at, len, budget, budget0 - (|body| - |body0|), at0 + Fit(data[at0..], budget0))
    {
      at, len, budget, more, n, body := at0, len0, budget0, false, 0, body0;
      var quote := Find(data, at, len, QUOTE);
      if quote.None? {
        PlainEnd(data, at, len, budget);
        return;
      }
      var step := quote.value + 1;
      PlainThenQuote(data, at, step, budget);
      if step >= budget {
        len := len - 1;
        budget := budget - 1;
        return;
      }
      n, body := WriteThroughQuote(data, at, step, head, body);
      len := len - step;
      budget := budget - (step + 1);
      at := at + step;
      if len > budget {
        len := budget;
      }
      more := true;
    }

    /** Writes what fits of the piece `d` behind the text `t`. */
    method AppendPart(ghost t: string, d: string, limit0: nat, ghost head: string) returns (limit: nat, n: nat)
      requires NUL !in d && output == head + Cut(t) && limit0 == Left(t)
      modifies this`output
      ensures output == head + Cut(t + d) && limit == Left(t + d) && |output| == |old(output)| + n
    {
      CutAppend(t, d);
      limit, n := WritePart(d, limit0);
    }

    method AppendSemicolon(ghost t: string, limit0: nat, ghost head: string) returns (limit: nat, n: nat)
      requires output == head + Cut(t) && limit0 == Left(t) && limit0 > 0
      modifies this`output
      ensures output == head + Cut(t + ";") && limit == Left(t + ";") && |output| == |old(output)| + n
    {
      SemicolonCosts(t);
      n := Write(";");
      limit := limit0 - 1;
    }

    /** The part loop of `SCPI_ResultError`: the second part is led in by a semicolon. */
    method WriteDescription(parts: seq<string>) returns (n: nat)
      requires 1 <= |parts| <= 3 && forall p | p in parts :: NUL !in p
      modifies this`output
      ensures output == old(output) + Cut(Joined(parts, |parts|)) && |output| == |old(output)| + n
    {
      n := 0;
      var limit: nat := DESCRIPTION_MAX;
      ghost var head, t := output, "";
      var i := 0;
      while i < |parts| && limit > 0
        invariant i <= |parts| && t == Joined(parts, i)
        invariant output == head + Cut(t) && limit == Left(t) && |output| == |head| + n
      {
        var k;
        assert parts[i] in parts;
        if i == 1 {
          limit, k := AppendSemicolon(t, limit, head);
          n := n + k;
          t := t + ";";
        }
        limit, k := AppendPart(t, parts[i], limit, head);
        n := n + k;
        t := t + parts[i];
        i := i + 1;
      }
      CutAppend(t, JoinedFrom(parts, i));
    }

    /**
     `SCPI_ResultError`: the code, and in quotes the description and the device-dependent text, cut to 255 characters.
     `parts` are the strings the function finds behind its non-null pointers: the description, and the text in one or
     two pieces.
     */
    method ResultError(code: int, parts: seq<string>) returns (result: nat)
      requires -TWO_TO_31 <= code < TWO_TO_31
      requires 1 <= |parts| <= 3 && forall p | p in parts :: NUL !in p
      modifies this`output, this`outputCount
      ensures outputCount == old(outputCount) + 1
      ensures output == old(output + Delimiter()) + ErrorText(code, parts[0], Info(parts))
      ensures |output| == |old(output)| + result
    {
      ghost var before, number := output + Delimiter(), IntText(code % TWO_TO_32, 10, true);
      result := ResultInt32(code);
      var n := WriteDelimiter();
      var m := Write([QUOTE]);
      result := result + n + m;
      n := WriteDescription(parts);
      m := Write([QUOTE]);
      result := result + n + m;
      JoinedIs(parts);
      ReportIs(before, number, Description(parts[0], Info(parts)));
    }
  }

  lemma ReportIs(before: string, number: string, text: string)
    ensures before + number + "," + [QUOTE] + text + [QUOTE] == before + (number + ",\"" + text + "\"")
  {
  }

  lemma JoinedIs(parts: seq<string>)
    requires 1 <= |parts| <= 3
    ensures Cut(Joined(parts, |parts|)) == Description(parts[0], Info(parts))
  {
    assert Joined(parts, |parts|) == parts[0] + (if Info(parts).Some? then ";" + Info(parts).value else "");
  }

  /** The device-dependent text found behind the pointers of an error report. */
  function Info(parts: seq<string>): Option<string>
    requires 1 <= |parts| <= 3
  {
    if |parts| == 1 then None else if |parts| == 2 then Some(parts[1]) else Some(parts[1] + parts[2])
  }

  /** The first `i` parts with the semicolon in front of the second. */
  function Joined(parts: seq<string>, i: nat): string
    requires i <= |parts| <= 3
  {
    if i == 0 then "" else if i == 1 then parts[0]
    else if i == 2 then parts[0] + ";" + parts[1] else parts[0] + ";" + parts[1] + parts[2]
  }

  function JoinedFrom(parts: seq<string>, i: nat): string
    requires i <= |parts| <= 3
    ensures Joined(parts, |parts|) == Joined(parts, i) + JoinedFrom(parts, i)
  {
    Joined(parts, |parts|)[|Joined(parts, i)|..]
  }

  function Cut(t: string): string {
    Doubled(t[..Fit(t, DESCRIPTION_MAX)])
  }

  function Left(t: string): nat {
    FitLongest(t, DESCRIPTION_MAX, |t|);
    assert t[..|t|] == t;
    if Fit(t, DESCRIPTION_MAX) == |t| then DESCRIPTION_MAX - |Doubled(t)| else 0
  }

  /** Writing one more piece into what is left of the budget. */
  lemma CutAppend(t: string, d: string)
    ensures Cut(t + d) == Cut(t) + Doubled(d[..Fit(d, Left(t))])
    ensures Left(t + d) == if Fit(d, Left(t)) == |d| then Left(t) - |Doubled(d)| else 0
  {
    FitAppend(t, d, DESCRIPTION_MAX);
    assert t[..|t|] == t;
    if Fit(t, DESCRIPTION_MAX) == |t| {
      CutAppendWhole(t, d);
    } else {
      assert (t + d)[..Fit(t, DESCRIPTION_MAX)] == t[..Fit(t, DESCRIPTION_MAX)];
    }
  }

  lemma SemicolonCosts(t: string)
    requires Left(t) > 0
    ensures Cut(t + ";") == Cut(t) + ";" && Left(t + ";") == Left(t) - 1
  {
    CutAppend(t, ";");
    assert Doubled(";") == ";";
  }

  lemma CutAppendWhole(t: string, d: string)
    requires Fit(t, DESCRIPTION_MAX) == |t|
    ensures Cut(t + d) == Cut(t) + Doubled(d[..Fit(d, Left(t))])
    ensures Left(t + d) == if Fit(d, Left(t)) == |d| then Left(t) - |Doubled(d)| else 0
  {
    FitAppend(t, d, DESCRIPTION_MAX);
    var k := Fit(d, Left(t));
    assert (t + d)[..|t| + k] == t + d[..k] && t[..|t|] == t && d[..|d|] == d;
    DoubledAppend(t, d[..k]);
  }

  /** The rest of a part that is written holds no quote and ends where the longest prefix that fits does. */
  predicate Settled(data: string, at: nat, len: nat, budget: nat, room: int, fit: nat) {
    && at + len == fit <= |data| && Free(data, QUOTE, at, fit) && len <= budget
    && budget - len == if fit == |data| then room - len else 0
  }

  /** A quote that no longer fits with its double ends the prefix; one that fits costs two. */
  lemma PlainThenQuote(data: string, at: nat, step: nat, budget: nat)
    requires 0 < step <= budget && at + step <= |data|
    requires data[at + step - 1] == QUOTE && Free(data, QUOTE, at, at + step - 1)
    ensures step == budget ==> Fit(data[at..], budget) == step - 1
    ensures step < budget ==> Fit(data[at..], budget) == step + Fit(data[at + step..], budget - (step + 1))
  {
    var s, k := data[at..], step - 1;
    assert s == s[..k] + s[k..] && s[..k] == data[at..at + k] && s[k..][1..] == data[at + step..];
    FitAppend(s[..k], s[k..], budget);
    FitPlain(s[..k], budget);
    DoubledPlain(s[..k]);
  }

  lemma StepPrefix(data: string, at: nat, step: nat)
    requires 0 < step && at + step <= |data| && data[at + step - 1] == QUOTE && Free(data, QUOTE, at, at + step - 1)
    ensures Doubled(data[..at + step]) == Doubled(data[..at]) + data[at..at + step] + [QUOTE]
  {
    var mid := data[at..at + step - 1];
    assert data[..at + step] == data[..at] + (mid + [QUOTE]);
    DoubledAppend(data[..at], mid + [QUOTE]);
    DoubledAppend(mid, [QUOTE]);
    DoubledPlain(mid);
    assert data[at..at + step] == mid + [QUOTE];
  }

  lemma PlainTail(data: string, at: nat, len: nat)
    requires at + len <= |data| && Free(data, QUOTE, at, at + len)
    ensures Doubled(data[..at + len]) == Doubled(data[..at]) + data[at..at + len]
  {
    assert data[..at + len] == data[..at] + data[at..at + len];
    DoubledAppend(data[..at], data[at..at + len]);
    DoubledPlain(data[at..at + len]);
  }

  lemma PlainEnd(data: string, at: nat, len: nat, budget: nat)
    requires at <= |data| && len == Min(|data| - at, budget) && Free(data, QUOTE, at, at + len)
    ensures Fit(data[at..], budget) == len
  {
    var s := data[at..];
    assert s == s[..len] + s[len..] && s[..len] == data[at..at + len];
    FitAppend(s[..len], s[len..], budget);
    FitPlain(s[..len], budget);
    DoubledPlain(s[..len]);
  }
}
