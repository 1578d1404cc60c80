/** Numeric lists and channel lists in expressions: entry by entry access. */
module Expressions {
  import opened Base
  import opened Lexer
  import opened Scanner
  import opened Numbers
  import opened Joining
  import opened ErrorCodes

  /** What reading one entry gives: the entry and the position behind it, an error, or nothing. */
  datatype Outcome<T> = Found(value: T, pos: nat) | Error | NoMore

  /** Walks from the entry at `p` over `index` entries: the loop of both `SCPI_Expr...ListEntry` functions. */
  function Walk<T>(s: string, read: nat -> Outcome<T>, p: nat, index: nat): Outcome<T>
    decreases index
  {
    var r := read(p);
    if !r.Found? || index == 0 then r
    else if Sees(s, r.pos, ',') then Walk(s, read, r.pos + 1, index - 1)
    else if r.pos >= |s| then NoMore
    else Error
  }

  /** Entry `i` of the text starts at `starts[i]` and is followed by a comma, or by the end when it is the last. */
  ghost predicate EntryAt<T>(s: string, read: nat -> Outcome<T>, starts: seq<nat>, values: seq<T>, i: nat)
    requires |starts| == |values| && i < |values|
  {
    var r := read(starts[i]);
    && r.Found? && r.value == values[i]
    && if i + 1 < |values| then Sees(s, r.pos, ',') && starts[i + 1] == r.pos + 1 else r.pos == |s|
  }

  /** Indexed access agrees with the whole list: each entry is found at its index, and none behind the last. */
  lemma {:induction false} WalkFinds<T>(s: string, read: nat -> Outcome<T>, starts: seq<nat>, values: seq<T>, k: nat,
        index: nat)
    requires |starts| == |values| && k < |values| && forall i | 0 <= i < |values| :: EntryAt(s, read, starts, values, i)
    ensures k + index < |values| ==>
      var r := Walk(s, read, starts[k], index); r.Found? && r.value == values[k + index]
    ensures k + index >= |values| ==> Walk(s, read, starts[k], index) == NoMore
    decreases index
  {
    assert EntryAt(s, read, starts, values, k);
    if index > 0 && k + 1 < |values| {
      WalkFinds(s, read, starts, values, k + 1, index - 1);
    }
  }

  /** The list as a whole: entry `k` for `k < n`, and no more for `k >= n`. */
  ghost predicate Access<T>(s: string, read: nat -> Outcome<T>, p: nat, values: seq<T>, k: nat) {
    var r := Walk(s, read, p, k);
    if k < |values| then r.Found? && r.value == values[k] else r == NoMore
  }

  lemma WalkAll<T>(s: string, read: nat -> Outcome<T>, starts: seq<nat>, values: seq<T>, k: nat)
    requires |starts| == |values| > 0 && forall i | 0 <= i < |values| :: EntryAt(s, read, starts, values, i)
    ensures Access(s, read, starts[0], values, k)
  {
    WalkFinds(s, read, starts, values, 0, k);
  }

  lemma WalkStep<T>(s: string, read: nat -> Outcome<T>, p: nat, index: nat)
    ensures var r := read(p);
      && (!r.Found? || index == 0 ==> Walk(s, read, p, index) == r)
      && (r.Found? && index > 0 && Sees(s, r.pos, ',') ==>
        Walk(s, read, p, index) == Walk(s, read, r.pos + 1, index - 1))
      && (r.Found? && index > 0 && !Sees(s, r.pos, ',') ==>
        Walk(s, read, p, index) == if r.pos >= |s| then NoMore else Error)
  {
  }

  /** A text, where the decimal number from each position ends, and what the C library reads there. */
  datatype Scan = Scan(text: string, decimal: nat -> nat, value: nat -> int)

  function ScanOf(s: string, tail: string): Scan {
    Scan(s, (p: nat) => if p <= |s| then Decimal(s, p) else p,
         (p: nat) => if p <= |s| then StrToL((s + tail)[p..], 10).0 else 0)
  }

  /**
   The ends are those `scpiLex_DecimalNumericProgramData` finds, the values those of the memory that goes on with
   `tail`.
   */
  ghost predicate Scans(c: Scan, tail: string) {
    forall p: nat {:trigger Asked(c.text, p)} :: Asked(c.text, p) && p <= |c.text| ==>
      c.decimal(p) == Decimal(c.text, p) && c.value(p) == StrToL((c.text + tail)[p..], 10).0
  }

  lemma ScanScans(s: string, tail: string)
    ensures Scans(ScanOf(s, tail), tail)
  {
  }

  /** A number or a range of numbers, as the tokens `numericRange` returns. */
  datatype Range = Range(isRange: bool, from: Token, to: Token)

  function NumberToken(p: nat, d: nat): Token
    requires p <= d
  {
    Token(DECIMAL_NUMERIC, p, d - p)
  }

  function NumericRange(c: Scan, p: nat): Outcome<Range> {
    var d := c.decimal(p);
    if d <= p then NoMore
    else if Sees(c.text, d, ':') then
      var e := c.decimal(d + 1);
      if e > d + 1 then Found(Range(true, NumberToken(p, d), NumberToken(d + 1, e)), e) else Error
    else Found(Range(false, NumberToken(p, d), Token(UNKNOWN, d, 0)), d)
  }

  function NumericReader(c: Scan): nat -> Outcome<Range> {
    (p: nat) => NumericRange(c, p)
  }

  /** A channel: the numbers of its dimensions. */
  function ChannelSpec(c: Scan, p: nat, i: nat): Outcome<seq<int>>
    decreases |c.text| - p
  {
    var d := c.decimal(p);
    if d <= p then (if i == 0 then NoMore else Error)
    else if Sees(c.text, d, '!') then
      var r := ChannelSpec(c, d + 1, i + 1);
      if r.Found? then Found([c.value(p)] + r.value, r.pos) else r
    else Found([c.value(p)], d)
  }

  /** A channel or a range of channels of equal dimension. */
  datatype Channels = Channels(isRange: bool, from: seq<int>, to: seq<int>)

  function ChannelRange(c: Scan, p: nat): Outcome<Channels> {
    match ChannelSpec(c, p, 0)
    case Error => Error
    case NoMore => Error
    case Found(from, d) =>
      if Sees(c.text, d, ':') then
        match ChannelSpec(c, d + 1, 0)
        case Error => Error
        case NoMore => Error
        case Found(to, e) => if |from| == |to| then Found(Channels(true, from, to), e) else Error
      else Found(Channels(false, from, []), d)
  }

  function ChannelReader(c: Scan): nat -> Outcome<Channels> {
    (p: nat) => ChannelRange(c, p)
  }

  /** An entry of a numeric list: a number, or a range. */
  datatype NumericEntry = Single(v: int) | Span(first: int, last: int) {
    predicate InRange() {
      match this
      case Single(v) => IsInt32(v)
      case Span(a, b) => IsInt32(a) && IsInt32(b)
    }

    function Text(): string
      requires InRange()
    {
      match this
      case Single(v) => NumText(v)
      case Span(a, b) => NumText(a) + ":" + NumText(b)
    }

    /** The tokens of the entry when its text starts at `p`. */
    function At(p: nat): Range
      requires InRange()
    {
      match this
      case Single(v) =>
        var d := p + |NumText(v)|;
        Range(false, NumberToken(p, d), Token(UNKNOWN, d, 0))
      case Span(a, b) =>
        var d := p + |NumText(a)|;
        Range(true, NumberToken(p, d), NumberToken(d + 1, d + 1 + |NumText(b)|))
    }
  }

  /** A separator of list entries, or the end. */
  predicate Comma(rest: string) {
    rest == "" || rest[0] == ','
  }

  lemma RangeText(before: string, a: string, b: string, more: string)
    ensures var s := before + (a + ":" + b) + more;
      s == before + a + (":" + b + more) && s == (before + a + ":") + b + more
  {
  }

  /** The scan finds a printed number where it stands. */
  lemma NumberAt(c: Scan, tail: string, before: string, v: int, t: string, rest: string)
    requires Scans(c, tail) && IsInt32(v) && t == NumText(v) && Separated(rest) && Separated(tail) &&
      c.text == before + t + rest
    ensures c.decimal(|before|) == |before| + |t| && t != "" && c.value(|before|) == v
    ensures rest != "" ==> c.text[|before| + |t|] == rest[0]
  {
    assert Asked(c.text, |before|);
    SignedRoundTrip(before, v, rest);
    ValueAt(before, v, t, rest, tail);
  }

  lemma ValueAt(before: string, v: int, t: string, rest: string, tail: string)
    requires IsInt32(v) && t == NumText(v) && Separated(rest) && Separated(tail)
    ensures StrToL((before + t + rest + tail)[|before|..], 10).0 == v
  {
    assert before + t + rest + tail == before + t + (rest + tail);
    SignedRoundTrip(before, v, rest + tail);
  }

  lemma SpanAt(c: Scan, tail: string, before: string, a: int, b: int, ta: string, tb: string, more: string)
    requires Scans(c, tail) && IsInt32(a) && IsInt32(b) && Separated(more) && Separated(tail) && ta == NumText(a) &&
      tb == NumText(b)
    requires c.text == before + (ta + ":" + tb) + more
    ensures var p := |before|; var d := p + |ta|;
      NumericRange(c, p) == Found(Range(true, NumberToken(p, d), NumberToken(d + 1, d + 1 + |tb|)), d + 1 + |tb|)
  {
    RangeText(before, ta, tb, more);
    NumberAt(c, tail, before, a, ta, ":" + tb + more);
    NumberAt(c, tail, before + ta + ":", b, tb, more);
  }

  lemma NumericAt(c: Scan, tail: string, before: string, e: NumericEntry, more: string)
    requires Scans(c, tail) && e.InRange() && Separated(more) && (e.Single? ==> !Sees(more, 0, ':')) && Separated(tail)
    requires c.text == before + e.Text() + more
    ensures NumericRange(c, |before|) == Found(e.At(|before|), |before| + |e.Text()|)
  {
    match e
    case Single(v) => NumberAt(c, tail, before, v, NumText(v), more);
    case Span(a, b) => SpanAt(c, tail, before, a, b, NumText(a), NumText(b), more);
  }

  predicate AllInRange(es: seq<NumericEntry>) {
    forall i | 0 <= i < |es| :: es[i].InRange()
  }

  function NumericTexts(es: seq<NumericEntry>): (ts: seq<string>)
    requires AllInRange(es)
    ensures |ts| == |es| && forall i | 0 <= i < |es| :: ts[i] == es[i].Text()
  {
    seq(|es|, i requires 0 <= i < |es| => es[i].Text())
  }

  /** Where entry `i` of the printed list starts. */
  function Start(ts: seq<string>, i: nat): nat
    requires i <= |ts|
  {
    |Before(ts, i, ',')|
  }

  lemma NumericEntryAt(c: Scan, tail: string, es: seq<NumericEntry>, starts: seq<nat>, values: seq<Range>, i: nat)
    requires Scans(c, tail) && Separated(tail) && AllInRange(es) && |starts| == |values| == |es| && i < |es|
    requires c.text == Row(NumericTexts(es), ',')
    requires forall k | 0 <= k < |es| :: starts[k] == Start(NumericTexts(es), k) && values[k] == es[k].At(starts[k])
    ensures EntryAt(c.text, NumericReader(c), starts, values, i)
  {
    var ts := NumericTexts(es);
    var before, more := Around(ts, i, ',');
    NumericAt(c, tail, before, es[i], more);
    var pos := |before| + |ts[i]|;
    assert i + 1 < |es| ==> c.text[pos] == more[0];
  }

  function Starts(ts: seq<string>): (r: seq<nat>)
    ensures |r| == |ts| && forall i | 0 <= i < |ts| :: r[i] == Start(ts, i)
  {
    seq(|ts|, i requires 0 <= i < |ts| => Start(ts, i))
  }

  lemma FirstStart(ts: seq<string>)
    ensures Start(ts, 0) == 0
  {
    assert ts[..0] == [];
  }

  function Ranges(es: seq<NumericEntry>, starts: seq<nat>): (r: seq<Range>)
    requires AllInRange(es) && |starts| == |es|
    ensures |r| == |es| && forall i | 0 <= i < |es| :: r[i] == es[i].At(starts[i])
  {
    seq(|es|, i requires 0 <= i < |es| => es[i].At(starts[i]))
  }

  /** The same for any scan of the text: entry `k` for `k < n`, and no more entries behind. */
  lemma NumericEntries(c: Scan, tail: string, es: seq<NumericEntry>, k: nat)
    requires es != [] && AllInRange(es) && c.text == Row(NumericTexts(es), ',') && Scans(c, tail) && Separated(tail)
    ensures Access(c.text, NumericReader(c), 0, Ranges(es, Starts(NumericTexts(es))), k)
  {
    var ts := NumericTexts(es);
    var starts := Starts(ts);
    var values := Ranges(es, starts);
    forall i | 0 <= i < |es| ensures EntryAt(c.text, NumericReader(c), starts, values, i) {
      NumericEntryAt(c, tail, es, starts, values, i);
    }
    FirstStart(ts);
    WalkAll(c.text, NumericReader(c), starts, values, k);
  }

  /** Indexed access to the printed form of a numeric list: entry `k` for `k < n`, and no more entries behind. */
  lemma NumericListAccess(tail: string, es: seq<NumericEntry>, k: nat)
    requires es != [] && AllInRange(es) && Separated(tail)
    ensures var s := Row(NumericTexts(es), ',');
      Access(s, NumericReader(ScanOf(s, tail)), 0, Ranges(es, Starts(NumericTexts(es))), k)
  {
    var s := Row(NumericTexts(es), ',');
    ScanScans(s, tail);
    NumericEntries(ScanOf(s, tail), tail, es, k);
  }

  predicate IsChannel(dims: seq<int>) {
    dims != [] && AllInt32(dims)
  }

  /** The numbers of a channel, separated by exclamation marks. */
  function ChannelText(dims: seq<int>): string
    requires AllInt32(dims)
  {
    Row(NumTexts(dims), '!')
  }

  /** An entry of a channel list: a channel, or a range of channels of the same dimension. */
  datatype ChannelEntry = One(dims: seq<int>) | Pair(first: seq<int>, last: seq<int>) {
    predicate InRange() {
      match this
      case One(dims) => IsChannel(dims)
      case Pair(a, b) => IsChannel(a) && IsChannel(b) && |a| == |b|
    }

    function Text(): string
      requires InRange()
    {
      match this
      case One(dims) => ChannelText(dims)
      case Pair(a, b) => ChannelText(a) + ":" + ChannelText(b)
    }

    function Value(): Channels {
      match this
      case One(dims) => Channels(false, dims, [])
      case Pair(a, b) => Channels(true, a, b)
    }
  }

  lemma ChannelParts(before: string, dims: seq<int>, more: string) returns (t: string, rest: string)
    requires IsChannel(dims) && Separated(more)
    ensures t == NumText(dims[0]) && Separated(rest) && before + ChannelText(dims) + more == before + t + rest
    ensures |dims| == 1 ==> rest == more && ChannelText(dims) == t
    ensures |dims| > 1 ==> rest != "" && rest[0] == '!' && IsChannel(dims[1..])
    ensures |dims| > 1 ==> before + t + rest == (before + t + "!") + ChannelText(dims[1..]) + more
    ensures |dims| > 1 ==> |ChannelText(dims)| == |t| + 1 + |ChannelText(dims[1..])|
  {
    var ts := NumTexts(dims);
    assert ts[1..] == NumTexts(dims[1..]);
    t, rest := ts[0], Continued(ts[1..], '!') + more;
    assert Row(ts, '!') == t + Continued(ts[1..], '!');
    if |dims| == 1 {
      assert ts[1..] == [];
    }
  }

  lemma LastDimension(c: Scan, p: nat, d: nat, v: int, i: nat)
    requires c.decimal(p) == d > p && c.value(p) == v && !Sees(c.text, d, '!')
    ensures ChannelSpec(c, p, i) == Found([v], d)
  {
  }

  lemma MoreDimensions(c: Scan, p: nat, d: nat, v: int, i: nat, vs: seq<int>, e: nat)
    requires c.decimal(p) == d > p && c.value(p) == v && Sees(c.text, d, '!') &&
      ChannelSpec(c, d + 1, i + 1) == Found(vs, e)
    ensures ChannelSpec(c, p, i) == Found([v] + vs, e)
  {
  }

  /** The text of a channel is read as its numbers. */
  lemma {:induction false} ChannelAt(c: Scan, tail: string, before: string, dims: seq<int>, more: string, i: nat)
    requires Scans(c, tail) && IsChannel(dims) && Separated(more) && !Sees(more, 0, '!') && Separated(tail)
    requires c.text == before + ChannelText(dims) + more
    ensures ChannelSpec(c, |before|, i) == Found(dims, |before| + |ChannelText(dims)|)
    decreases |dims|
  {
    var t, rest := ChannelParts(before, dims, more);
    var p, d := |before|, |before| + |t|;
    NumberAt(c, tail, before, dims[0], t, rest);
    if |dims| > 1 {
      ChannelAt(c, tail, before + t + "!", dims[1..], more, i + 1);
      MoreDimensions(c, p, d, dims[0], i, dims[1..], d + 1 + |ChannelText(dims[1..])|);
      assert dims == [dims[0]] + dims[1..];
    } else {
      NextChar(before, t, more);
      LastDimension(c, p, d, dims[0], i);
      assert dims == [dims[0]];
    }
  }

  lemma NextChar(before: string, t: string, more: string)
    ensures var s, d := before + t + more, |before| + |t|; if more == "" then d == |s| else d < |s| && s[d] == more[0]
  {
  }

  lemma OneAt(c: Scan, tail: string, before: string, a: seq<int>, ta: string, more: string)
    requires Scans(c, tail) && IsChannel(a) && Comma(more) && Separated(tail) && ta == ChannelText(a)
    requires c.text == before + ta + more
    ensures ChannelRange(c, |before|) == Found(Channels(false, a, []), |before| + |ta|)
  {
    ChannelAt(c, tail, before, a, more, 0);
    NextChar(before, ta, more);
  }

  lemma PairAt(c: Scan, tail: string, before: string, a: seq<int>, b: seq<int>, ta: string, tb: string, more: string)
    requires Scans(c, tail) && IsChannel(a) && IsChannel(b) && |a| == |b| && Separated(tail)
    requires Separated(more) && !Sees(more, 0, '!')
    requires ta == ChannelText(a) && tb == ChannelText(b) && c.text == before + (ta + ":" + tb) + more
    ensures ChannelRange(c, |before|) == Found(Channels(true, a, b), |before| + |ta| + 1 + |tb|)
  {
    var p := |before|;
    var d := p + |ta|;
    RangeText(before, ta, tb, more);
    ChannelAt(c, tail, before, a, ":" + tb + more, 0);
    ChannelAt(c, tail, before + ta + ":", b, more, 0);
    NextChar(before, ta, ":" + tb + more);
    RangeOfTwo(c, p, a, d, b, d + 1 + |tb|);
  }

  lemma RangeOfTwo(c: Scan, p: nat, a: seq<int>, d: nat, b: seq<int>, e: nat)
    requires ChannelSpec(c, p, 0) == Found(a, d) && Sees(c.text, d, ':') && ChannelSpec(c, d + 1, 0) == Found(b, e)
    requires |a| == |b|
    ensures ChannelRange(c, p) == Found(Channels(true, a, b), e)
  {
  }

  lemma EntryRead(c: Scan, tail: string, before: string, e: ChannelEntry, more: string)
    requires Scans(c, tail) && e.InRange() && Comma(more) && Separated(tail) && c.text == before + e.Text() + more
    ensures ChannelRange(c, |before|) == Found(e.Value(), |before| + |e.Text()|)
  {
    match e
    case One(dims) => OneAt(c, tail, before, dims, ChannelText(dims), more);
    case Pair(a, b) => PairAt(c, tail, before, a, b, ChannelText(a), ChannelText(b), more);
  }

  predicate AllChannels(es: seq<ChannelEntry>) {
    forall i | 0 <= i < |es| :: es[i].InRange()
  }

  function ChannelTexts(es: seq<ChannelEntry>): (ts: seq<string>)
    requires AllChannels(es)
    ensures |ts| == |es| && forall i | 0 <= i < |es| :: ts[i] == es[i].Text()
  {
    seq(|es|, i requires 0 <= i < |es| => es[i].Text())
  }

  function Values(es: seq<ChannelEntry>): (vs: seq<Channels>)
    ensures |vs| == |es| && forall i | 0 <= i < |es| :: vs[i] == es[i].Value()
  {
    seq(|es|, i requires 0 <= i < |es| => es[i].Value())
  }

  function Behind(starts: seq<nat>): (r: seq<nat>)
    ensures |r| == |starts| && forall i | 0 <= i < |starts| :: r[i] == 1 + starts[i]
  {
    seq(|starts|, i requires 0 <= i < |starts| => 1 + starts[i])
  }

  lemma ChannelEntryAt(c: Scan, tail: string, es: seq<ChannelEntry>, i: nat)
    requires Scans(c, tail) && AllChannels(es) && i < |es| && Separated(tail) &&
      c.text == "@" + Row(ChannelTexts(es), ',')
    ensures EntryAt(c.text, ChannelReader(c), Behind(Starts(ChannelTexts(es))), Values(es), i)
  {
    var ts := ChannelTexts(es);
    var before, more := Around(ts, i, ',');
    AtBefore(before, ts[i], more);
    EntryRead(c, tail, "@" + before, es[i], more);
    NextChar("@" + before, ts[i], more);
  }

  lemma AtBefore(before: string, t: string, more: string)
    ensures "@" + (before + t + more) == ("@" + before) + t + more
  {
  }

  lemma AllEntries(c: Scan, tail: string, es: seq<ChannelEntry>)
    requires AllChannels(es) && Separated(tail) && c.text == "@" + Row(ChannelTexts(es), ',') && Scans(c, tail)
    ensures forall i | 0 <= i < |es| :: EntryAt(c.text, ChannelReader(c), Behind(Starts(ChannelTexts(es))),
      Values(es), i)
    ensures es != [] ==> Behind(Starts(ChannelTexts(es)))[0] == 1
  {
    forall i | 0 <= i < |es|
      ensures EntryAt(c.text, ChannelReader(c), Behind(Starts(ChannelTexts(es))), Values(es), i)
    {
      ChannelEntryAt(c, tail, es, i);
    }
    FirstStart(ChannelTexts(es));
  }

  /** The same for any scan of the text. */
  lemma ChannelEntries(c: Scan, tail: string, es: seq<ChannelEntry>, k: nat)
    requires es != [] && AllChannels(es) && Separated(tail) && c.text == "@" + Row(ChannelTexts(es), ',') &&
      Scans(c, tail)
    ensures Access(c.text, ChannelReader(c), 1, Values(es), k)
  {
    AllEntries(c, tail, es);
    WalkAll(c.text, ChannelReader(c), Behind(Starts(ChannelTexts(es))), Values(es), k);
  }

  /** Indexed access to the printed form of a channel list, of any dimensions, that follows the at sign. */
  lemma ChannelListAccess(tail: string, es: seq<ChannelEntry>, k: nat)
    requires es != [] && AllChannels(es) && Separated(tail)
    ensures var s := "@" + Row(ChannelTexts(es), ',');
      Access(s, ChannelReader(ScanOf(s, tail)), 1, Values(es), k)
  {
    var s := "@" + Row(ChannelTexts(es), ',');
    ScanScans(s, tail);
    ChannelEntries(ScanOf(s, tail), tail, es, k);
  }

  /** Every character may stand in an expression. */
  predicate InExpression(s: string) {
    forall i | 0 <= i < |s| :: In(s[i], ExpressionChar)
  }

  lemma {:induction false} RowInExpression(ts: seq<string>, sep: char)
    requires In(sep, ExpressionChar) && forall t | t in ts :: InExpression(t)
    ensures InExpression(Row(ts, sep))
  {
    if |ts| > 1 {
      assert ts[0] in ts;
      assert forall t | t in ts[1..] :: t in ts;
      RowInExpression(ts[1..], sep);
      assert Row(ts, sep) == ts[0] + ([sep] + Row(ts[1..], sep));
    } else if |ts| == 1 {
      assert ts[0] in ts && Row(ts, sep) == ts[0] + "";
    }
  }

  lemma NumberInExpression(v: int)
    requires IsInt32(v)
    ensures InExpression(NumText(v))
  {
    SignedText(v);
    SignedDigits(v, NumText(v));
  }

  lemma NumericInExpression(es: seq<NumericEntry>)
    requires AllInRange(es)
    ensures InExpression(Row(NumericTexts(es), ','))
  {
    forall t | t in NumericTexts(es) ensures InExpression(t) {
      var i :| 0 <= i < |es| && t == es[i].Text();
      match es[i]
      case Single(v) => NumberInExpression(v);
      case Span(a, b) =>
        NumberInExpression(a);
        NumberInExpression(b);
    }
    RowInExpression(NumericTexts(es), ',');
  }

  lemma ChannelInExpression(dims: seq<int>)
    requires AllInt32(dims)
    ensures InExpression(ChannelText(dims))
  {
    forall t | t in NumTexts(dims) ensures InExpression(t) {
      var i :| 0 <= i < |dims| && t == NumText(dims[i]);
      NumberInExpression(dims[i]);
    }
    RowInExpression(NumTexts(dims), '!');
  }

  lemma ChannelsInExpression(es: seq<ChannelEntry>)
    requires AllChannels(es)
    ensures InExpression("@" + Row(ChannelTexts(es), ','))
  {
    forall t | t in ChannelTexts(es) ensures InExpression(t) {
      var i :| 0 <= i < |es| && t == es[i].Text();
      match es[i]
      case One(dims) => ChannelInExpression(dims);
      case Pair(a, b) =>
        ChannelInExpression(a);
        ChannelInExpression(b);
    }
    RowInExpression(ChannelTexts(es), ',');
  }

  lemma {:induction false} RunOfExpression(s: string, p: nat, q: nat)
    requires p <= q < |s| && s[q] == ')' && forall i | p <= i < q :: In(s[i], ExpressionChar)
    ensures Run(s, p, ExpressionChar) == q
    decreases q - p
  {
    if p < q {
      RunOfExpression(s, p + 1, q);
    }
  }

  /** In parentheses such a text is one expression, wherever it stands, and what is inside them is the text. */
  lemma ExpressionToken(before: string, inside: string, rest: string)
    requires InExpression(inside)
    ensures var s, p, n := before + "(" + inside + ")" + rest, |before|, |inside| + 2;
      && ParseData(s, p).token == Token(PROGRAM_EXPRESSION, p, n)
      && s[p..p + n][1..n - 1] == inside
  {
    var s, p, n := before + "(" + inside + ")" + rest, |before|, |inside| + 2;
    var d := Parsed(p + n, Token(PROGRAM_EXPRESSION, p, n), n);
    ExpressionBytes(s, before, inside, rest);
    ExpressionLexed(s, p, p + n - 1, d);
    ParseDataIsFirst(s, p, d);
  }

  lemma ExpressionBytes(s: string, before: string, inside: string, rest: string)
    requires s == before + "(" + inside + ")" + rest && InExpression(inside)
    ensures var p, n := |before|, |inside| + 2;
      && p + n <= |s| && s[p] == '(' && s[p + n - 1] == ')' && s[p..p + n][1..n - 1] == inside
      && forall i | p + 1 <= i < p + n - 1 :: In(s[i], ExpressionChar)
  {
    var p, n := |before|, |inside| + 2;
    assert s[p..p + n] == "(" + inside + ")";
    assert forall i | p + 1 <= i < p + n - 1 :: s[i] == inside[i - (p + 1)];
  }

  lemma ExpressionLexed(s: string, p: nat, q: nat, d: Parsed)
    requires p < q < |s| && s[p] == '(' && s[q] == ')' && forall i | p + 1 <= i < q :: In(s[i], ExpressionChar)
    requires d == Parsed(q + 1, Token(PROGRAM_EXPRESSION, p, q + 1 - p), q + 1 - p)
    ensures Run(s, p, Blank) == p && FirstFrom(0, s, p) == d
  {
    RunOfExpression(s, p + 1, q);
    assert Try(5, s, p) == d;
    AtParenthesis(s, p);
  }

  /** At a parenthesis only the expression recogniser can succeed. */
  lemma AtParenthesis(s: string, p: nat)
    requires p < |s| && s[p] == '('
    ensures FirstFrom(0, s, p) == Try(5, s, p)
  {
    var none := Parsed(p, Token(UNKNOWN, p, 0), 0);
    assert Try(0, s, p) == none && Try(1, s, p) == none && Try(3, s, p) == none && Try(4, s, p) == none;
    assert Run(s, p, Digit) == p && Decimal(s, p) == p;
    assert Try(2, s, p) == none;
    assert FirstFrom(0, s, p) == FirstFrom(4, s, p);
  }

  /** A printed numeric list in parentheses is one expression parameter with that list inside. */
  lemma NumericListToken(before: string, es: seq<NumericEntry>, rest: string)
    requires AllInRange(es)
    ensures var inside := Row(NumericTexts(es), ','); var s, p := before + "(" + inside + ")" + rest, |before|;
      var k := ParseData(s, p).token;
      k == Token(PROGRAM_EXPRESSION, p, |inside| + 2) && s[p..p + k.len][1..k.len - 1] == inside
  {
    NumericInExpression(es);
    ExpressionToken(before, Row(NumericTexts(es), ','), rest);
  }

  /** The same for a printed channel list. */
  lemma ChannelListToken(before: string, es: seq<ChannelEntry>, rest: string)
    requires AllChannels(es)
    ensures var inside := "@" + Row(ChannelTexts(es), ','); var s, p := before + "(" + inside + ")" + rest, |before|;
      var k := ParseData(s, p).token;
      k == Token(PROGRAM_EXPRESSION, p, |inside| + 2) && s[p..p + k.len][1..k.len - 1] == inside
  {
    ChannelsInExpression(es);
    ExpressionToken(before, "@" + Row(ChannelTexts(es), ','), rest);
  }

  /** `numericRange`. */
  method ReadNumericRange(state: LexState, ghost c: Scan, ghost tail: string) returns (r: Outcome<Range>)
    requires state.InRange() && Scans(c, tail) && c.text == state.buffer
    modifies state
    ensures state.InRange() && r == NumericRange(c, old(state.pos)) && (r.Found? ==> state.pos == r.pos)
  {
    assert Asked(c.text, state.pos);
    var from := state.DecimalNumericProgramData();
    if from.len == 0 {
      return NoMore;
    }
    var to := state.Character(':', COLON);
    if to.len == 0 {
      return Found(Range(false, from, to), state.pos);
    }
    assert Asked(c.text, state.pos);
    to := state.DecimalNumericProgramData();
    r := if to.len > 0 then Found(Range(true, from, to), state.pos) else Error;
  }

  /**
   `SCPI_ExprNumericListEntry` on a parameter whose text is `text`; an error is reported besides. `was` is what the
   places for the result hold: an index below zero succeeds and leaves them as they are.
   */
  method ExprNumericListEntry(kind: TokenType, text: string, index: int, was: Range, ghost c: Scan, ghost tail: string)
      returns (r: Outcome<Range>, reported: Option<int>)
    requires kind == PROGRAM_EXPRESSION ==> |text| >= 2 && c.text == text[1..|text| - 1] && Scans(c, tail)
    ensures kind != PROGRAM_EXPRESSION ==> r == Error && reported == Some(DATA_TYPE_ERROR)
    ensures kind == PROGRAM_EXPRESSION ==>
      r == (if index < 0 then Found(was, 0) else Walk(c.text, NumericReader(c), 0, index)) &&
        reported == if r == Error then Some(EXPRESSION_PARSING_ERROR) else None
    ensures reported == if kind != PROGRAM_EXPRESSION then Some(-104) else if r == Error then Some(-170) else None
  {
    if kind != PROGRAM_EXPRESSION {
      return Error, Some(DATA_TYPE_ERROR);
    }
    var state := new LexState(text[1..|text| - 1], 0);
    var i: nat, more := 0, index >= 0;
    r := Found(was, 0);
    ghost var read := NumericReader(c);
    while more
      invariant state.InRange() && (more ==> i <= index)
      invariant more ==> Walk(c.text, read, state.pos, index - i) == Walk(c.text, read, 0, index)
      invariant !more ==> r == if index < 0 then Found(was, 0) else Walk(c.text, read, 0, index)
      decreases more, index - i
    {
      r, more := NumericTurn(state, index - i, c, tail, read);
      i := if more then i + 1 else i;
    }
    reported := if r.Error? then Some(EXPRESSION_PARSING_ERROR) else None;
  }

  /** The loop body of `SCPI_ExprNumericListEntry`, with `index` entries still to pass. */
  method NumericTurn(state: LexState, index: nat, ghost c: Scan, ghost tail: string, ghost read: nat -> Outcome<Range>)
      returns (r: Outcome<Range>, more: bool)
    requires state.InRange() && Scans(c, tail) && c.text == state.buffer && read == NumericReader(c)
    modifies state
    ensures state.InRange()
    ensures more ==> index > 0 && Walk(c.text, read, state.pos, index - 1) == Walk(c.text, read, old(state.pos), index)
    ensures !more ==> r == Walk(c.text, read, old(state.pos), index)
  {
    WalkStep(c.text, read, state.pos, index);
    ghost var spec := read(state.pos);
    r := ReadNumericRange(state, c, tail);
    assert r == spec;
    more := false;
    if r.Found? && index > 0 {
      r, more := NextEntry(state, r);
    }
  }

  /** The comma between two entries of a list; without one the list ends, or is wrong. */
  method NextEntry<T>(state: LexState, r0: Outcome<T>) returns (r: Outcome<T>, more: bool)
    requires state.InRange()
    modifies state
    ensures state.InRange() && more == Sees(state.buffer, old(state.pos), ',')
    ensures if more then state.pos == old(state.pos) + 1 && r == r0
      else r == if old(state.pos) >= |state.buffer| then NoMore else Error
  {
    var comma := state.Character(',', COMMA);
    more := comma.len > 0;
    r := r0;
    if !more {
      var end := state.IsEos();
      r := if end then NoMore else Error;
    }
  }

  /** `channelSpec`: the number of dimensions, the first of them in `values`. */
  method ReadChannelSpec(state: LexState, values: array<int>, length: nat, tail: string, ghost c: Scan)
      returns (r: Outcome<nat>)
    requires state.InRange() && Scans(c, tail) && c.text == state.buffer && length <= values.Length
    modifies state, values
    ensures state.InRange() && (r.Found? ==> state.pos == r.pos)
    ensures match ChannelSpec(c, old(state.pos), 0)
      case Found(vs, pos) => r == Found(|vs|, pos) && values[..Min(length, |vs|)] == vs[..Min(length, |vs|)]
      case Error => r == Error
      case NoMore => r == NoMore
  {
    var i: nat, more := 0, true;
    ghost var goal, got := ChannelSpec(c, state.pos, 0), [];
    PrependNothing(goal);
    while more
      invariant state.InRange() && |got| == i
      invariant values[..Min(length, i)] == got[..Min(length, i)]
      invariant more ==> goal == Prepended(got, ChannelSpec(c, state.pos, i))
      invariant !more ==> goal == Found(got, state.pos)
      decreases more, |state.buffer| - state.pos
    {
      ghost var p := state.pos;
      PrependMore(got, c.value(p), ChannelSpec(c, c.decimal(p) + 1, i + 1));
      var ok;
      ok, more := ReadDimension(state, values, length, tail, i, c, got);
      if !ok {
        return if i == 0 then NoMore else Error;
      }
      got := got + [c.value(p)];
      i := i + 1;
    }
    r := Found(i, state.pos);
  }

  /** One dimension of a channel and the exclamation mark behind it. */
  method ReadDimension(state: LexState, values: array<int>, length: nat, tail: string, i: nat, ghost c: Scan,
        ghost got: seq<int>)
      returns (ok: bool, more: bool)
    requires state.InRange() && Scans(c, tail) && c.text == state.buffer && length <= values.Length && |got| == i
    requires values[..Min(length, i)] == got[..Min(length, i)]
    modifies state, values
    ensures state.InRange()
    ensures var p := old(state.pos); var spec := ChannelSpec(c, p, i);
      if !ok then spec == (if i == 0 then NoMore else Error)
      else if more then p < state.pos && spec == Prepended([c.value(p)], ChannelSpec(c, state.pos, i + 1)) &&
        state.pos == c.decimal(p) + 1
      else spec == Found([c.value(p)], state.pos)
    ensures ok ==> values[..Min(length, i + 1)] == (got + [c.value(old(state.pos))])[..Min(length, i + 1)]
  {
    assert Asked(c.text, state.pos);
    ghost var p := state.pos;
    var param := state.DecimalNumericProgramData();
    ok, more := param.len > 0, false;
    if ok {
      SpecStep(c, p, i);
      if i < length {
        values[i] := StrToL((state.buffer + tail)[param.ptr..], 10).0;
      }
      var mark := state.Character('!', SPECIFIC_CHARACTER);
      more := mark.len > 0;
    }
  }

  /** The outcome of a channel before which `got` has been read. */
  function Prepended(got: seq<int>, r: Outcome<seq<int>>): Outcome<seq<int>> {
    if r.Found? then Found(got + r.value, r.pos) else r
  }

  lemma PrependNothing(r: Outcome<seq<int>>)
    ensures Prepended([], r) == r
  {
    if r.Found? {
      assert [] + r.value == r.value;
    }
  }

  lemma PrependMore(got: seq<int>, v: int, r: Outcome<seq<int>>)
    ensures Prepended(got, Prepended([v], r)) == Prepended(got + [v], r)
  {
    if r.Found? {
      assert got + ([v] + r.value) == (got + [v]) + r.value;
    }
  }

  lemma SpecStep(c: Scan, p: nat, i: nat)
    requires c.decimal(p) > p
    ensures var d := c.decimal(p);
      ChannelSpec(c, p, i) == if Sees(c.text, d, '!') then Prepended([c.value(p)], ChannelSpec(c, d + 1, i + 1))
        else Found([c.value(p)], d)
  {
  }

  /** The first numbers of a channel are in the array. */
  predicate Stored(values: array<int>, length: nat, vs: seq<int>)
    requires length <= values.Length
    reads values
  {
    values[..Min(length, |vs|)] == vs[..Min(length, |vs|)]
  }

  /** `channelRange`: whether it is a range, and the number of dimensions. */
  method ReadChannelRange(state: LexState, from: array<int>, to: array<int>, length: nat, tail: string, ghost c: Scan)
      returns (r: Outcome<(bool, nat)>)
    requires state.InRange() && Scans(c, tail) && c.text == state.buffer
    requires length <= from.Length && length <= to.Length && from != to
    modifies state, from, to
    ensures state.InRange()
    ensures var spec := ChannelRange(c, old(state.pos));
      if spec.Found? then
        && r == Found((spec.value.isRange, |spec.value.from|), spec.pos) && state.pos == spec.pos
        && Stored(from, length, spec.value.from) && (spec.value.isRange ==> Stored(to, length, spec.value.to))
      else r == Error
  {
    var first := ReadChannelSpec(state, from, length, tail, c);
    if !first.Found? {
      return Error;
    }
    var colon := state.Character(':', COLON);
    if colon.len == 0 {
      return Found((false, first.value), state.pos);
    }
    var second := ReadChannelSpec(state, to, length, tail, c);
    if !second.Found? || first.value != second.value {
      return Error;
    }
    r := Found((true, first.value), state.pos);
  }

  /**
   `SCPI_ExprChannelListEntry` on a parameter whose text is `text`; an error is reported besides. `was` is what the
   places for the result hold: an index below zero succeeds and leaves them and the arrays as they are.
   */
  method ExprChannelListEntry(kind: TokenType, text: string, index: int, was: (bool, nat), from: array<int>,
                              to: array<int>, length: nat, tail: string, ghost c: Scan)
      returns (r: Outcome<(bool, nat)>, reported: Option<int>)
    requires kind == PROGRAM_EXPRESSION ==> |text| >= 2 && c.text == text[1..|text| - 1] && Scans(c, tail)
    requires length <= from.Length && length <= to.Length && from != to
    modifies from, to
    ensures kind != PROGRAM_EXPRESSION ==> r == Error && reported == Some(DATA_TYPE_ERROR)
    ensures kind == PROGRAM_EXPRESSION && !Sees(c.text, 0, '@') ==> r == Error
    ensures kind == PROGRAM_EXPRESSION && Sees(c.text, 0, '@') && index < 0 ==>
      r == Found(was, 0) && from[..] == old(from[..]) && to[..] == old(to[..])
    ensures kind == PROGRAM_EXPRESSION && Sees(c.text, 0, '@') && index >= 0 ==>
      var spec := Walk(c.text, ChannelReader(c), 1, index);
      if spec.Found? then
        && r == Found((spec.value.isRange, |spec.value.from|), spec.pos)
        && Stored(from, length, spec.value.from) && (spec.value.isRange ==> Stored(to, length, spec.value.to))
      else r.Error? == spec.Error? && r.NoMore? == spec.NoMore?
    ensures kind == PROGRAM_EXPRESSION ==> reported == if r == Error then Some(EXPRESSION_PARSING_ERROR) else None
    ensures reported == if kind != PROGRAM_EXPRESSION then Some(-104) else if r == Error then Some(-170) else None
  {
    if kind != PROGRAM_EXPRESSION {
      return Error, Some(DATA_TYPE_ERROR);
    }
    var state := new LexState(text[1..|text| - 1], 0);
    var at := state.Character('@', SPECIFIC_CHARACTER);
    if at.len == 0 {
      return Error, Some(EXPRESSION_PARSING_ERROR);
    }
    var i: nat, more := 0, index >= 0;
    r := Found(was, 0);
    ghost var goal := Walk(c.text, ChannelReader(c), 1, if index < 0 then 0 else index);
    while more
      invariant state.InRange() && (more ==> i <= index)
      invariant index < 0 ==> !more && r == Found(was, 0) && from[..] == old(from[..]) && to[..] == old(to[..])
      invariant more ==> Walk(c.text, ChannelReader(c), state.pos, index - i) == goal
      invariant !more && index >= 0 ==> Same(r, goal) && AllStored(goal, from, to, length)
      decreases more, index - i
    {
      r, more := ChannelTurn(state, index - i, from, to, length, tail, c, ChannelReader(c));
      i := if more then i + 1 else i;
    }
    reported := if r.Error? then Some(EXPRESSION_PARSING_ERROR) else None;
  }

  /** The values of a channel entry that was found are in the arrays. */
  predicate AllStored(spec: Outcome<Channels>, from: array<int>, to: array<int>, length: nat)
    requires length <= from.Length && length <= to.Length
    reads from, to
  {
    spec.Found? ==> Stored(from, length, spec.value.from) && (spec.value.isRange ==> Stored(to, length, spec.value.to))
  }

  /** The loop body of `SCPI_ExprChannelListEntry`, with `index` entries still to pass. */
  method ChannelTurn(state: LexState, index: nat, from: array<int>, to: array<int>, length: nat, tail: string,
                     ghost c: Scan, ghost read: nat -> Outcome<Channels>)
      returns (r: Outcome<(bool, nat)>, more: bool)
    requires state.InRange() && Scans(c, tail) && c.text == state.buffer && read == ChannelReader(c)
    requires length <= from.Length && length <= to.Length && from != to
    modifies state, from, to
    ensures state.InRange()
    ensures more ==> index > 0 && Walk(c.text, read, state.pos, index - 1) == Walk(c.text, read, old(state.pos), index)
    ensures !more ==> var spec := Walk(c.text, read, old(state.pos), index);
      Same(r, spec) && AllStored(spec, from, to, length)
  {
    WalkStep(c.text, read, state.pos, index);
    ghost var spec := read(state.pos);
    r := ReadChannelRange(state, from, to, if index == 0 then length else 0, tail, c);
    assert Same(r, spec);
    more := false;
    if r.Found? && index > 0 {
      r, more := NextEntry(state, r);
    }
  }

  /** The outcome of a method and that of its specification. */
  predicate Same(r: Outcome<(bool, nat)>, spec: Outcome<Channels>) {
    match spec
    case Found(v, pos) => r == Found((v.isRange, |v.from|), pos)
    case Error => r == Error
    case NoMore => r == NoMore
  }

  /** Entry `index` of a printed numeric list, read from its parameter: found, or no more, and never an error. */
  method NumericBack(es: seq<NumericEntry>, index: nat, was: Range, tail: string) returns (r: Outcome<Range>)
    requires es != [] && AllInRange(es)
    ensures if index < |es| then r.Found? && r.value == Ranges(es, Starts(NumericTexts(es)))[index] else r == NoMore
  {
    ghost var s := Row(NumericTexts(es), ',');
    var text := "(" + Row(NumericTexts(es), ',') + ")";
    assert text[1..|text| - 1] == s;
    ghost var rest := ")" + tail;
    ScanScans(s, rest);
    NumericListAccess(rest, es, index);
    var reported;
    r, reported := ExprNumericListEntry(PROGRAM_EXPRESSION, text, index, was, ScanOf(s, rest), rest);
  }

  /** Entry `index` of a printed channel list, read from its parameter, with its numbers in the arrays. */
  method ChannelBack(es: seq<ChannelEntry>, index: nat, was: (bool, nat), from: array<int>, to: array<int>, length: nat,
                     tail: string) returns (r: Outcome<(bool, nat)>)
    requires es != [] && AllChannels(es) && length <= from.Length && length <= to.Length && from != to
    modifies from, to
    ensures if index < |es| then
        var v := es[index].Value();
        r.Found? && r.value == (v.isRange, |v.from|)
        && Stored(from, length, v.from) && (v.isRange ==> Stored(to, length, v.to))
      else r == NoMore
  {
    ghost var s := "@" + Row(ChannelTexts(es), ',');
    var text := "(" + ("@" + Row(ChannelTexts(es), ',')) + ")";
    assert text[1..|text| - 1] == s;
    var rest := ")" + tail;
    ScanScans(s, rest);
    ChannelListAccess(rest, es, index);
    var reported;
    r, reported := ExprChannelListEntry(PROGRAM_EXPRESSION, text, index, was, from, to, length, rest, ScanOf(s, rest));
  }
}
