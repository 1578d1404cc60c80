/** What the parameter readers make of an element as it is written, of every kind. */
module ItemReading {
  import opened Base
  import opened IntegerText
  import opened Lexer
  import opened Scanner
  import opened Numbers
  import opened Grammar
  import opened Items
  import opened Syntax
  import opened Texts
  import opened Reader
  import opened Parameters
  import opened IntArrays
  import opened IntParameters
  import EndToEnd

  /** An element alone is one parameter. */
  lemma ItemIsParameter(it: Item)
    requires it.Valid()
    ensures it.Text() != "" && it.Front() <= |it.Text()|
    ensures ReadParameter(Of(it.Text()), 0, 0) ==
      Got(Token(it.Kind(), it.Front(), |it.Text()| - it.Front()), |it.Text()|)
  {
    var t := it.Text();
    FrontInside(it);
    assert t == "" + t + "";
    AtIn("", t, "");
    ItemStarts(t, 0, it);
    var e := Entry("", it, "");
    assert e.Text() == t;
    EntryIsData(t, 0, e, |t|);
  }

  /** The number that a decimal or based element stands for, if it stands for one. */
  function IntOf(it: Item): Option<int>
    requires it.Plain? || it.Based?
  {
    if it.Based? then Some(AsInt32(CutToWord(Value(it.digits, it.base))))
    else
      var m := it.number.number;
      if m.whole == "" then None else Some(Clamped(Signed(m.sign, Value(m.whole, 10))))
  }

  lemma NumbersRead(it: Item, tail: string, mandatory: bool)
    requires it.Valid() && Separated(tail) && (it.Plain? || it.Based?)
    ensures ReadInt32(it.Text(), it.Text() + tail, 0, 0, mandatory) ==
      if IntOf(it).Some? then IntValue(IntOf(it).value, |it.Text()|) else Stop([])
  {
    if it.Plain? {
      DecimalParameter(it.number, tail, mandatory);
    } else {
      BasedParameter(it.letter, it.base, it.digits, tail, mandatory);
    }
  }

  lemma OthersStop(it: Item, tail: string, mandatory: bool)
    requires it.Valid() && !it.Plain? && !it.Based?
    ensures ReadInt32(it.Text(), it.Text() + tail, 0, 0, mandatory) == Stop([if it.Suffixed? then -138 else -104])
  {
    ItemIsParameter(it);
  }

  /**
   `SCPI_ParamInt32` on an element of any kind: a number gives its value, a number with a unit is error -138, and every
   other element error -104.
   */
  method IntFrom(it: Item, tail: string, mandatory: bool) returns (r: Option<int>, errors: seq<int>)
    requires it.Valid() && Separated(tail)
    ensures it.Plain? || it.Based? ==> errors == [] && r == IntOf(it)
    ensures it.Suffixed? ==> r == None && errors == [-138]
    ensures it.Word? || it.Quoted? || it.Block? || it.Expression? ==> r == None && errors == [-104]
  {
    var buf := it.Text();
    var list := new ParameterList(buf);
    ReaderReads(buf, buf + tail);
    if it.Plain? || it.Based? {
      NumbersRead(it, tail, mandatory);
    } else {
      OthersStop(it, tail, mandatory);
    }
    r := ParamInt32(list, tail, mandatory, ReaderOf(buf, buf + tail));
    errors := list.errors;
  }

  lemma QuotedCopied(it: Item, n: nat)
    requires it.Quoted? && it.Valid() && |it.Text()| <= n
    ensures Copied(it.Text()[0..|it.Text()|], it.quote, n, 1) == it.text
  {
    var d := Quoting.Doubled(it.text, it.quote);
    assert it.Text()[0..|it.Text()|] == [it.quote] + d + [it.quote];
    TextRoundTrip(it.text, n, it.quote);
  }

  /** `SCPI_ParamCopyText` on an element of any kind: a text in either quotes is copied, anything else is error -104. */
  method TextFrom(it: Item, buffer: array<char>) returns (ok: bool, copyLen: nat, errors: seq<int>)
    requires it.Valid() && |it.Text()| <= buffer.Length
    modifies buffer
    ensures ok <==> it.Quoted?
    ensures ok ==> copyLen <= buffer.Length && buffer[..copyLen] == it.text && errors == []
    ensures !ok ==> errors == [-104]
  {
    var list := new ParameterList(it.Text());
    ItemIsParameter(it);
    if it.Quoted? {
      QuotedCopied(it, buffer.Length);
    }
    ok, copyLen := ParamCopyText(list, buffer, true);
    errors := list.errors;
  }

  lemma PayloadIs(it: Item)
    requires it.Block? && it.Valid()
    ensures it.Front() + |it.payload| == |it.Text()| && it.Text()[it.Front()..] == it.payload
  {
    SizeDigit(|it.size|);
  }

  /** `SCPI_ParamArbitraryBlock` on an element of any kind: a block gives its payload, anything else is error -104. */
  method BlockFrom(it: Item) returns (ok: bool, payload: string, errors: seq<int>)
    requires it.Valid()
    ensures ok <==> it.Block?
    ensures ok ==> payload == it.payload && errors == []
    ensures !ok ==> errors == [-104]
  {
    var t := it.Text();
    var list := new ParameterList(t);
    ItemIsParameter(it);
    if it.Block? {
      PayloadIs(it);
    }
    var value;
    ok, value := EndToEnd.ParamArbitraryBlock(list, true);
    payload := if ok then t[value.ptr..value.ptr + value.len] else "";
    errors := list.errors;
  }

  /** A block whose end has not arrived is no parameter, and all of it is taken. */
  lemma CutBlock(it: Item, k: nat)
    requires it.Block? && it.Valid() && 0 < k < |it.Text()|
    ensures LexArbitraryBlockProgramData(it.Text()[..k], 0) == Lexed(k, Token(UNKNOWN, 0, 0))
  {
    var s := it.Text()[..k];
    SizeDigit(|it.size|);
    PayloadIs(it);
    assert s[0] == '#';
    if k > 1 {
      assert s[1] == DigitChar(|it.size|);
      assert s[1] as int - '0' as int == |it.size|;
      if k < it.Front() {
        DigitsMissing(s, 2, it.size, k);
      } else {
        AtPrefix(it, k);
        SizeOver(s, 2, it.size, it.Front());
      }
    }
  }

  /** Nothing is found there, and the scan ends at the end of the buffer. */
  lemma CutBlockData(it: Item, k: nat)
    requires it.Block? && it.Valid() && 0 < k < |it.Text()|
    ensures ParseData(it.Text()[..k], 0) == Parsed(k, Token(UNKNOWN, k, 0), 0)
  {
    var s := it.Text()[..k];
    CutBlock(it, k);
    SizeDigit(|it.size|);
    assert s[0] == '#' && (k > 1 ==> s[1] == DigitChar(|it.size|));
    Items.NoNumber(s, 0);
    var none := Parsed(0, Token(UNKNOWN, 0, 0), 0);
    assert Try(0, s, 0) == none && Try(1, s, 0) == none && Try(2, s, 0) == none && Try(3, s, 0) == none;
    assert Try(4, s, 0) == Parsed(k, Token(UNKNOWN, 0, 0), 0);
    assert Try(5, s, k) == Parsed(k, Token(UNKNOWN, k, 0), 0);
    assert FirstFrom(0, s, 0) == FirstFrom(1, s, 0) == FirstFrom(2, s, 0) == FirstFrom(3, s, 0) == FirstFrom(4, s, 0);
    assert FirstFrom(4, s, 0) == FirstFrom(5, s, k);
    ParseDataBy(s, 0, 0, Parsed(k, Token(UNKNOWN, k, 0), 0), k);
  }

  lemma AtPrefix(it: Item, k: nat)
    requires it.Block? && it.Valid() && it.Front() <= k <= |it.Text()|
    ensures At(it.Text()[..k], 2, it.size)
  {
    var s := it.Text()[..k];
    assert s[2..2 + |it.size|] == it.size;
  }

  /** Digits that the end of the buffer cuts off are missing. */
  lemma DigitsMissing(s: string, p: nat, size: string, k: nat)
    requires |s| == k && p <= k < p + |size| && IsNumeric(size) && s[p..] == size[..k - p]
    ensures var r := LengthDigits(s, p, |size|, 0); r.0 == k && r.1 > 0
  {
    DigitsToEnd(s, p, |size|, 0);
  }

  lemma {:induction false} DigitsToEnd(s: string, p: nat, n: nat, value: nat)
    requires p <= |s| < p + n && forall i | p <= i < |s| :: '0' <= s[i] <= '9'
    ensures var r := LengthDigits(s, p, n, value); r.0 == |s| && r.1 > 0
    decreases n
  {
    if p < |s| {
      DigitsToEnd(s, p + 1, n - 1, value * 10 + (s[p] as int - '0' as int));
    }
  }

  /** A printed block is a block element: its header gives the number of length digits and the decimal length. */
  lemma PrintedBlock(payload: string)
    requires |payload| < Blocks.BLOCK_LIMIT
    ensures var it := Block(Digits(|payload|, 10), payload);
      it.Valid() && it.Text() == Blocks.BlockHeader(|payload|) + payload
  {
    var t := Digits(|payload|, 10);
    LengthIsSize(|payload|, t);
    Regrouped(DigitChar(|t|), t, payload);
  }

  lemma LengthIsSize(len: nat, t: string)
    requires len < Blocks.BLOCK_LIMIT && t == Digits(len, 10)
    ensures 0 < |t| <= 9 && |t| % 10 == |t| && IsNumeric(t) && Value(t, 10) == len
  {
    Blocks.HeaderDigits(len);
    DigitsAreNumeric(len);
    DigitsValue(len, 10);
    SizeDigit(|t|);
  }

  lemma Regrouped(c: char, t: string, payload: string)
    ensures ['#', c] + (t + payload) == "#" + [c] + t + payload
  {
  }

  /** A printed text is a text element. */
  lemma PrintedText(text: string)
    requires SevenBit(text)
    ensures Quoted('"', text).Valid() && Quoted('"', text).Text() == Encoded(text)
  {
    assert Quoted('"', text).Text() == Encoded(text);
  }
}
