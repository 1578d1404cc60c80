/** Lists with a broken entry: what lies before it is found, and from it on the list is an error. */
module ListErrors {
  import opened Lexer
  import opened Scanner
  import opened Numbers
  import opened Joining
  import opened Expressions

  /** Entry `i` is followed by a comma and the next entry. */
  ghost predicate GoesOn<T>(s: string, read: nat -> Outcome<T>, starts: seq<nat>, values: seq<T>, i: nat)
    requires |starts| == |values| + 1 && i < |values|
  {
    var r := read(starts[i]);
    r.Found? && r.value == values[i] && Sees(s, r.pos, ',') && starts[i + 1] == r.pos + 1
  }

  lemma {:induction false} WalkBreaks<T>(s: string, read: nat -> Outcome<T>, starts: seq<nat>, values: seq<T>, k: nat,
        index: nat)
    requires |starts| == |values| + 1 && k <= |values| &&
      forall i | 0 <= i < |values| :: GoesOn(s, read, starts, values, i)
    requires read(starts[|values|]) == Error
    ensures var r := Walk(s, read, starts[k], index);
      if k + index < |values| then r.Found? && r.value == values[k + index] else r == Error
    decreases index
  {
    if k < |values| {
      assert GoesOn(s, read, starts, values, k);
      if index > 0 {
        WalkBreaks(s, read, starts, values, k + 1, index - 1);
      }
    }
  }

  /** Behind the last entry comes neither a comma nor the end. */
  lemma {:induction false} WalkTrails<T>(s: string, read: nat -> Outcome<T>, starts: seq<nat>, values: seq<T>, k: nat,
        index: nat)
    requires |starts| == |values| + 1 && k <= |values| &&
      forall i | 0 <= i < |values| :: GoesOn(s, read, starts, values, i)
    requires var r := read(starts[|values|]); r.Found? && r.pos < |s| && s[r.pos] != ','
    ensures var r := Walk(s, read, starts[k], index);
      if k + index < |values| then r.Found? && r.value == values[k + index]
      else if k + index == |values| then r == read(starts[|values|])
      else r == Error
    decreases index
  {
    if k < |values| {
      assert GoesOn(s, read, starts, values, k);
      if index > 0 {
        WalkTrails(s, read, starts, values, k + 1, index - 1);
      }
    }
  }

  /** A number and a colon that no number follows. */
  lemma OpenRange(c: Scan, tail: string, before: string, a: int)
    requires Scans(c, tail) && IsInt32(a) && Separated(tail) && c.text == before + (NumText(a) + ":")
    ensures NumericRange(c, |before|) == Error
  {
    var t := NumText(a);
    assert c.text == before + t + ":";
    NumberAt(c, tail, before, a, t, ":");
    assert Asked(c.text, |c.text|);
    EndIsNoNumber(c.text);
  }

  lemma EndIsNoNumber(s: string)
    ensures Decimal(s, |s|) == |s|
  {
  }

  /** Where the texts of a list start, the first of them at `first`. */
  function Offsets(ts: seq<string>, first: nat): (r: seq<nat>)
    ensures |r| == |ts| && forall i | 0 <= i < |ts| :: r[i] == first + Start(ts, i)
  {
    seq(|ts|, i requires 0 <= i < |ts| => first + Start(ts, i))
  }

  /** A text of a list that is not the last one has a comma behind it, and then the next one. */
  lemma NextBegins(ts: seq<string>, i: nat) returns (before: string, more: string)
    requires i < |ts|
    ensures Row(ts, ',') == before + ts[i] + more && |before| == Start(ts, i)
    ensures i + 1 < |ts| ==> more != "" && more[0] == ',' && Start(ts, i + 1) == |before| + |ts[i]| + 1
    ensures i + 1 == |ts| ==> more == ""
  {
    before, more := Around(ts, i, ',');
  }

  lemma NumericGoesOn(c: Scan, tail: string, es: seq<NumericEntry>, ts: seq<string>, bad: string, starts: seq<nat>,
        values: seq<Range>, i: nat)
    requires Scans(c, tail) && Separated(tail) && AllInRange(es) && ts == NumericTexts(es) + [bad] && i < |es|
    requires c.text == Row(ts, ',') && starts == Offsets(ts, 0) && values == Ranges(es, starts[..|es|])
    ensures GoesOn(c.text, NumericReader(c), starts, values, i)
  {
    var before, more := NextBegins(ts, i);
    assert ts[i] == es[i].Text();
    NumericAt(c, tail, before, es[i], more);
    assert c.text[|before| + |ts[i]|] == more[0];
  }

  /**
   A numeric list whose last entry is a range without its second number: the entries before it are found at their
   index, and every later index is an error.
   */
  lemma BrokenNumericList(tail: string, es: seq<NumericEntry>, a: int, index: nat)
    requires AllInRange(es) && IsInt32(a) && Separated(tail)
    ensures var ts := NumericTexts(es) + [NumText(a) + ":"]; var s := Row(ts, ',');
      var r := Walk(s, NumericReader(ScanOf(s, tail)), 0, index);
      if index < |es| then r.Found? && r.value == es[index].At(Start(ts, index)) else r == Error
  {
    var bad := NumText(a) + ":";
    var ts := NumericTexts(es) + [bad];
    var s := Row(ts, ',');
    var c := ScanOf(s, tail);
    ScanScans(s, tail);
    NumericBreaks(c, tail, es, ts, a, index);
  }

  lemma NumericBreaks(c: Scan, tail: string, es: seq<NumericEntry>, ts: seq<string>, a: int, index: nat)
    requires Scans(c, tail) && AllInRange(es) && IsInt32(a) && Separated(tail)
    requires ts == NumericTexts(es) + [NumText(a) + ":"] && c.text == Row(ts, ',')
    ensures var r := Walk(c.text, NumericReader(c), 0, index);
      if index < |es| then r.Found? && r.value == es[index].At(Start(ts, index)) else r == Error
  {
    var starts := Offsets(ts, 0);
    var values := Ranges(es, starts[..|es|]);
    forall i | 0 <= i < |es| ensures GoesOn(c.text, NumericReader(c), starts, values, i) {
      NumericGoesOn(c, tail, es, ts, NumText(a) + ":", starts, values, i);
    }
    var before, more := NextBegins(ts, |es|);
    assert c.text == before + (NumText(a) + ":") + "";
    assert before + (NumText(a) + ":") + "" == before + (NumText(a) + ":");
    OpenRange(c, tail, before, a);
    FirstStart(ts);
    WalkBreaks(c.text, NumericReader(c), starts, values, 0, index);
  }

  lemma NumericTrails(c: Scan, tail: string, es: seq<NumericEntry>, last: NumericEntry, ts: seq<string>, x: string,
        index: nat)
    requires Scans(c, tail) && AllInRange(es) && last.InRange() && Separated(tail)
    requires ts == NumericTexts(es) + [last.Text() + ("!" + x)] && c.text == Row(ts, ',')
    ensures index > |es| ==> Walk(c.text, NumericReader(c), 0, index) == Error
    ensures index == |es| ==> Walk(c.text, NumericReader(c), 0, index).Found?
  {
    var starts := Offsets(ts, 0);
    var values := Ranges(es, starts[..|es|]);
    forall i | 0 <= i < |es| ensures GoesOn(c.text, NumericReader(c), starts, values, i) {
      NumericGoesOn(c, tail, es, ts, last.Text() + ("!" + x), starts, values, i);
    }
    LastTrails(c, tail, ts, last, x);
    FirstStart(ts);
    WalkTrails(c.text, NumericReader(c), starts, values, 0, index);
  }

  lemma LastTrails(c: Scan, tail: string, ts: seq<string>, last: NumericEntry, x: string)
    requires Scans(c, tail) && last.InRange() && Separated(tail) && c.text == Row(ts, ',')
    requires ts != [] && ts[|ts| - 1] == last.Text() + ("!" + x)
    ensures var r := NumericRange(c, Start(ts, |ts| - 1)); r.Found? && r.pos < |c.text| && c.text[r.pos] == '!'
  {
    var before := LastText(ts);
    TrailsAt(c, tail, before, last, "!" + x);
  }

  lemma TrailsAt(c: Scan, tail: string, before: string, last: NumericEntry, more: string)
    requires Scans(c, tail) && last.InRange() && Separated(tail) && Sees(more, 0, '!')
    requires c.text == before + (last.Text() + more)
    ensures var r := NumericRange(c, |before|); r.Found? && r.pos < |c.text| && c.text[r.pos] == '!'
  {
    var t := last.Text();
    assert before + (t + more) == before + t + more;
    NumericAt(c, tail, before, last, more);
    NextChar(before, t, more);
  }

  /** A numeric list with something else behind its last entry: that is still found, and every later index an error. */
  lemma TrailingNumericList(tail: string, es: seq<NumericEntry>, last: NumericEntry, x: string, index: nat)
    requires AllInRange(es) && last.InRange() && Separated(tail)
    ensures var s := Row(NumericTexts(es) + [last.Text() + ("!" + x)], ',');
      var r := Walk(s, NumericReader(ScanOf(s, tail)), 0, index);
      (index == |es| ==> r.Found?) && (index > |es| ==> r == Error)
  {
    var ts := NumericTexts(es) + [last.Text() + ("!" + x)];
    var s := Row(ts, ',');
    ScanScans(s, tail);
    NumericTrails(ScanOf(s, tail), tail, es, last, ts, x, index);
  }

  /** What is no channel and no range of channels of one dimension. */
  datatype Broken =
    | Empty
    | Unfinished(dims: seq<int>)
    | NoSecond(dims: seq<int>)
    | Unequal(first: seq<int>, last: seq<int>)
  {
    predicate Valid() {
      match this
      case Empty => true
      case Unfinished(dims) => IsChannel(dims)
      case NoSecond(dims) => IsChannel(dims)
      case Unequal(a, b) => IsChannel(a) && IsChannel(b) && |a| != |b|
    }

    function Text(): string
      requires Valid()
    {
      match this
      case Empty => ""
      case Unfinished(dims) => ChannelText(dims) + "!"
      case NoSecond(dims) => ChannelText(dims) + ":"
      case Unequal(a, b) => ChannelText(a) + ":" + ChannelText(b)
    }
  }

  lemma NoNumberAtEnd(c: Scan, tail: string)
    requires Scans(c, tail)
    ensures c.decimal(|c.text|) == |c.text|
  {
    assert Asked(c.text, |c.text|);
    EndIsNoNumber(c.text);
  }

  /** Behind an exclamation mark a number is missing. */
  lemma {:induction false} UnfinishedAt(c: Scan, tail: string, before: string, dims: seq<int>, i: nat)
    requires Scans(c, tail) && IsChannel(dims) && Separated(tail) && c.text == before + ChannelText(dims) + "!"
    ensures ChannelSpec(c, |before|, i) == Error
    decreases |dims|
  {
    var t, rest := ChannelParts(before, dims, "!");
    var d := |before| + |t|;
    NumberAt(c, tail, before, dims[0], t, rest);
    assert c.text[d] == rest[0] == '!';
    if |dims| > 1 {
      UnfinishedAt(c, tail, before + t + "!", dims[1..], i + 1);
      assert |before + t + "!"| == d + 1;
    } else {
      NoNumberAtEnd(c, tail);
      assert ChannelSpec(c, |c.text|, i + 1) == Error;
    }
  }

  lemma NoSecondAt(c: Scan, tail: string, before: string, dims: seq<int>)
    requires Scans(c, tail) && IsChannel(dims) && Separated(tail) && c.text == before + ChannelText(dims) + ":"
    ensures ChannelRange(c, |before|) == Error
  {
    ChannelAt(c, tail, before, dims, ":", 0);
    NoNumberAtEnd(c, tail);
    assert ChannelSpec(c, |c.text|, 0) == NoMore;
  }

  lemma UnequalAt(c: Scan, tail: string, before: string, a: seq<int>, b: seq<int>, ta: string, tb: string)
    requires Scans(c, tail) && IsChannel(a) && IsChannel(b) && |a| != |b| && Separated(tail)
    requires ta == ChannelText(a) && tb == ChannelText(b) && c.text == before + (ta + ":" + tb)
    ensures ChannelRange(c, |before|) == Error
  {
    var d := |before| + |ta|;
    assert c.text == before + (ta + ":" + tb) + "";
    RangeText(before, ta, tb, "");
    assert ":" + tb + "" == ":" + tb;
    ChannelAt(c, tail, before, a, ":" + tb, 0);
    ChannelAt(c, tail, before + ta + ":", b, "", 0);
    assert c.text[d] == ':' && |before + ta + ":"| == d + 1;
  }

  lemma BrokenAt(c: Scan, tail: string, before: string, e: Broken)
    requires Scans(c, tail) && e.Valid() && Separated(tail) && c.text == before + e.Text()
    ensures ChannelRange(c, |before|) == Error
  {
    match e
    case Empty =>
      assert before + "" == before;
      NoNumberAtEnd(c, tail);
    case Unfinished(dims) =>
      assert c.text == before + ChannelText(dims) + "!";
      UnfinishedAt(c, tail, before, dims, 0);
    case NoSecond(dims) =>
      assert c.text == before + ChannelText(dims) + ":";
      NoSecondAt(c, tail, before, dims);
    case Unequal(a, b) =>
      UnequalAt(c, tail, before, a, b, ChannelText(a), ChannelText(b));
  }

  lemma ChannelGoesOn(c: Scan, tail: string, es: seq<ChannelEntry>, ts: seq<string>, bad: string, starts: seq<nat>,
        i: nat)
    requires Scans(c, tail) && Separated(tail) && AllChannels(es) && ts == ChannelTexts(es) + [bad] && i < |es|
    requires c.text == "@" + Row(ts, ',') && starts == Offsets(ts, 1)
    ensures GoesOn(c.text, ChannelReader(c), starts, Values(es), i)
  {
    var before, more := NextBegins(ts, i);
    assert ts[i] == es[i].Text();
    AtBefore(before, ts[i], more);
    EntryRead(c, tail, "@" + before, es[i], more);
    NextChar("@" + before, ts[i], more);
  }

  lemma LastBreaks(c: Scan, tail: string, before: string, e: Broken)
    requires Scans(c, tail) && e.Valid() && Separated(tail) && c.text == "@" + (before + e.Text())
    ensures ChannelRange(c, 1 + |before|) == Error
  {
    PutAt(before, e.Text());
    BrokenAt(c, tail, "@" + before, e);
  }

  lemma LastText(ts: seq<string>) returns (before: string)
    requires ts != []
    ensures Row(ts, ',') == before + ts[|ts| - 1] && |before| == Start(ts, |ts| - 1)
  {
    var more;
    before, more := NextBegins(ts, |ts| - 1);
    assert before + ts[|ts| - 1] + "" == before + ts[|ts| - 1];
  }

  lemma PutAt(before: string, t: string)
    ensures "@" + (before + t) == ("@" + before) + t && |"@" + before| == 1 + |before|
  {
  }

  lemma ChannelsGoOn(c: Scan, tail: string, es: seq<ChannelEntry>, ts: seq<string>, bad: string, starts: seq<nat>)
    requires Scans(c, tail) && Separated(tail) && AllChannels(es) && ts == ChannelTexts(es) + [bad]
    requires c.text == "@" + Row(ts, ',') && starts == Offsets(ts, 1)
    ensures forall i | 0 <= i < |es| :: GoesOn(c.text, ChannelReader(c), starts, Values(es), i)
  {
    forall i | 0 <= i < |es| ensures GoesOn(c.text, ChannelReader(c), starts, Values(es), i) {
      ChannelGoesOn(c, tail, es, ts, bad, starts, i);
    }
  }

  lemma ChannelsBreak(c: Scan, es: seq<ChannelEntry>, starts: seq<nat>, values: seq<Channels>, index: nat)
    requires |starts| == |es| + 1 && values == Values(es) && starts[0] == 1 && ChannelRange(c, starts[|es|]) == Error
    requires forall i | 0 <= i < |es| :: GoesOn(c.text, ChannelReader(c), starts, values, i)
    ensures var r := Walk(c.text, ChannelReader(c), 1, index);
      if index < |es| then r.Found? && r.value == es[index].Value() else r == Error
  {
    WalkBreaks(c.text, ChannelReader(c), starts, values, 0, index);
  }

  lemma LastIsBroken(c: Scan, tail: string, ts: seq<string>, e: Broken)
    requires Scans(c, tail) && e.Valid() && Separated(tail) && c.text == "@" + Row(ts, ',')
    requires ts != [] && ts[|ts| - 1] == e.Text()
    ensures ChannelRange(c, 1 + Start(ts, |ts| - 1)) == Error
  {
    var before := LastText(ts);
    LastBreaks(c, tail, before, e);
  }

  lemma ChannelBreaks(c: Scan, tail: string, es: seq<ChannelEntry>, ts: seq<string>, bad: string, starts: seq<nat>,
        index: nat)
    requires Scans(c, tail) && AllChannels(es) && Separated(tail) && ts == ChannelTexts(es) + [bad]
    requires c.text == "@" + Row(ts, ',') && starts == Offsets(ts, 1) && ChannelRange(c, starts[|es|]) == Error
    ensures var r := Walk(c.text, ChannelReader(c), 1, index);
      if index < |es| then r.Found? && r.value == es[index].Value() else r == Error
  {
    ChannelsGoOn(c, tail, es, ts, bad, starts);
    FirstStart(ts);
    ChannelsBreak(c, es, starts, Values(es), index);
  }

  /**
   A channel list whose last entry is empty, lacks a number, or is a range of channels of unequal dimension: the entries
   before it are found at their index, and every later index is an error.
   */
  lemma BrokenChannelList(tail: string, es: seq<ChannelEntry>, e: Broken, index: nat)
    requires AllChannels(es) && e.Valid() && Separated(tail)
    ensures var s := "@" + Row(ChannelTexts(es) + [e.Text()], ',');
      var r := Walk(s, ChannelReader(ScanOf(s, tail)), 1, index);
      if index < |es| then r.Found? && r.value == es[index].Value() else r == Error
  {
    var ts := ChannelTexts(es) + [e.Text()];
    var s := "@" + Row(ts, ',');
    ScanScans(s, tail);
    LastIsBroken(ScanOf(s, tail), tail, ts, e);
    ChannelBreaks(ScanOf(s, tail), tail, es, ts, e.Text(), Offsets(ts, 1), index);
  }
}
