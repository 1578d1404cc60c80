/** Arrays of 32-bit integers in ASCII: `SCPI_ResultArrayInt32` and `SCPI_ParamArrayInt32`. */
module IntArrays {
  import opened Base
  import opened Lexer
  import opened Scanner
  import opened IntegerText
  import opened Numbers
  import opened Joining
  import opened Results
  import Blocks
  import opened Reader
  import opened Parameters
  import opened ErrorCodes

  /** The numbers, separated by commas. */
  function ArrayText(vals: seq<int>): string
    requires AllInt32(vals)
  {
    Row(NumTexts(vals), ',')
  }

  /** Where the reader stands before number `i`: behind the numbers before it. */
  function Position(vals: seq<int>, i: nat): nat
    requires AllInt32(vals) && i <= |vals|
  {
    |Row(NumTexts(vals)[..i], ',')|
  }

  /** The output after `i` numbers, when `count` results stood before them. */
  function Written(start: string, vals: seq<int>, count: nat, i: nat): string
    requires AllInt32(vals) && i <= |vals|
  {
    start + (if i > 0 && count > 0 then "," else "") + Row(NumTexts(vals)[..i], ',')
  }

  lemma NextText(start: string, vals: seq<int>, count: nat, i: nat)
    requires AllInt32(vals) && i < |vals|
    ensures Written(start, vals, count, i + 1) ==
      Written(start, vals, count, i) + (if count + i > 0 then "," else "") + BasePrefix(10) + NumText(vals[i])
  {
    PrefixSnoc(NumTexts(vals), i, ',');
    assert i == 0 ==> NumTexts(vals)[..i] == [];
  }

  /** `scpi_array_format_t`; the machine is little-endian. */
  datatype Format = ASCII | NORMAL | SWAPPED

  /** The bytes of a signed number as they stand in memory. */
  function MemoryBytes(v: int): (b: string)
    requires IsInt32(v)
    ensures |b| == 4
  {
    var w := v % TWO_TO_32;
    [(w % 256) as char, (w / 0x100 % 256) as char, (w / 0x1_0000 % 256) as char, (w / 0x100_0000) as char]
  }

  /** The bytes determine the number. */
  lemma MemoryValue(v: int)
    requires IsInt32(v)
    ensures var b := MemoryBytes(v);
      AsInt32(b[0] as int + 0x100 * b[1] as int + 0x1_0000 * b[2] as int + 0x100_0000 * b[3] as int) == v
  {
    Word(v);
    var w := v % TWO_TO_32;
    assert w == w % 256 + 0x100 * (w / 0x100);
    assert w / 0x100 == w / 0x100 % 256 + 0x100 * (w / 0x1_0000);
    assert w / 0x1_0000 == w / 0x1_0000 % 256 + 0x100 * (w / 0x100_0000);
  }

  function Memory(vals: seq<int>): (items: seq<string>)
    requires AllInt32(vals)
    ensures |items| == |vals| && forall i | 0 <= i < |vals| :: items[i] == MemoryBytes(vals[i])
  {
    seq(|vals|, i requires 0 <= i < |vals| => MemoryBytes(vals[i]))
  }

  /** The number in four bytes, the most significant first. */
  function BigEndian(b: string): int
    requires |b| == 4
  {
    AsInt32(0x100_0000 * b[0] as int + 0x1_0000 * b[1] as int + 0x100 * b[2] as int + b[3] as int)
  }

  /** The number in four bytes, the least significant first. */
  function LittleEndian(b: string): int
    requires |b| == 4
  {
    AsInt32(b[0] as int + 0x100 * b[1] as int + 0x1_0000 * b[2] as int + 0x100_0000 * b[3] as int)
  }

  /** The bytes `4 * k..4 * k + 4` of the `n` items a text ends with. */
  function Item(output: string, n: nat, k: nat): (b: string)
    requires k < n && 4 * n <= |output|
    ensures |b| == 4
  {
    var payload := output[|output| - 4 * n..];
    payload[4 * k..4 * k + 4]
  }

  lemma ItemIs(front: string, items: seq<string>, k: nat)
    requires Blocks.SameSize(items, 4) && k < |items|
    ensures |Flat(items)| == 4 * |items| && Item(front + Flat(items), |items|, k) == items[k]
  {
    Blocks.FlatLength(items, 4);
    Blocks.FlatItem(items, 4, k);
    assert (front + Flat(items))[|front|..] == Flat(items);
  }

  /** The bytes of an array in either order are the numbers. */
  lemma ItemValue(front: string, vals: seq<int>, native: bool, k: nat)
    requires AllInt32(vals) && k < |vals|
    ensures var out := front + Flat(Blocks.Ordered(Memory(vals), native));
      && 4 * |vals| <= |out|
      && (if native then LittleEndian(Item(out, |vals|, k)) else BigEndian(Item(out, |vals|, k))) == vals[k]
  {
    var items := Blocks.Ordered(Memory(vals), native);
    var b := MemoryBytes(vals[k]);
    assert Memory(vals)[k] == b;
    ItemIs(front, items, k);
    MemoryValue(vals[k]);
    if !native {
      Blocks.ReversedAt(b, 0);
      Blocks.ReversedAt(b, 1);
      Blocks.ReversedAt(b, 2);
      Blocks.ReversedAt(b, 3);
    }
  }

  /** The output ends in the numbers, each in four bytes. */
  ghost predicate HoldsItems(output: string, vals: seq<int>, native: bool) {
    && 4 * |vals| <= |output|
    && forall k | 0 <= k < |vals| ::
      (if native then LittleEndian(Item(output, |vals|, k)) else BigEndian(Item(output, |vals|, k))) == vals[k]
  }

  lemma ItemValues(front: string, vals: seq<int>, native: bool)
    requires AllInt32(vals)
    ensures HoldsItems(front + Flat(Blocks.Ordered(Memory(vals), native)), vals, native)
  {
    var items := Blocks.Ordered(Memory(vals), native);
    Blocks.FlatLength(items, 4);
    forall k | 0 <= k < |vals|
      ensures var out := front + Flat(items);
        (if native then LittleEndian(Item(out, |vals|, k)) else BigEndian(Item(out, |vals|, k))) == vals[k]
    {
      ItemValue(front, vals, native, k);
    }
  }

  /** `SCPI_ResultArrayInt32`: numbers in ASCII, or one block of their bytes in either order. */
  method ResultArrayInt32(r: Results, vals: seq<int>, format: Format) returns (result: nat)
    requires AllInt32(vals) && (format != ASCII ==> |vals| * 4 < Blocks.BLOCK_LIMIT)
    modifies r`output, r`outputCount, r`arbitraryRemaining, r`errors
    ensures |r.output| == |old(r.output)| + result && r.errors == old(r.errors)
    ensures format == ASCII ==>
      && r.output == old(r.output) + (if vals == [] then "" else old(r.Delimiter())) + ArrayText(vals)
      && r.outputCount == old(r.outputCount) + |vals| && r.arbitraryRemaining == old(r.arbitraryRemaining)
    ensures format != ASCII ==>
      && r.output == old(r.output + r.Delimiter()) + Blocks.BlockHeader(|vals| * 4) +
        Flat(Blocks.Ordered(Memory(vals), format == SWAPPED))
      && r.arbitraryRemaining == 0
      && r.outputCount == old(r.outputCount) + if format == SWAPPED || vals != [] then 1 else 0
    ensures format != ASCII ==> HoldsItems(r.output, vals, format == SWAPPED)
  {
    if format == ASCII {
      result := ResultNumbers(r, vals);
    } else {
      ghost var front := r.output + r.Delimiter() + Blocks.BlockHeader(|vals| * 4);
      result := Blocks.ProduceResultArrayBinary(r, Memory(vals), 4, format == SWAPPED);
      ItemValues(front, vals, format == SWAPPED);
    }
  }

  /** The ASCII loop of `SCPI_ResultArrayInt32`. */
  method ResultNumbers(r: Results, vals: seq<int>) returns (result: nat)
    requires AllInt32(vals)
    modifies r`output, r`outputCount
    ensures r.output == old(r.output) + (if vals == [] then "" else old(r.Delimiter())) + ArrayText(vals)
    ensures r.outputCount == old(r.outputCount) + |vals| && |r.output| == |old(r.output)| + result
  {
    result := 0;
    ghost var start := r.output;
    for i := 0 to |vals|
      invariant r.outputCount == old(r.outputCount) + i
      invariant r.output == Written(start, vals, old(r.outputCount), i) && |r.output| == |start| + result
    {
      NextText(start, vals, old(r.outputCount), i);
      var n := r.ResultInt32(vals[i]);
      result := result + n;
    }
    assert NumTexts(vals)[..|vals|] == NumTexts(vals);
  }

  /** The word a C `uint32_t` holds, read through an `int32_t` pointer. */
  function AsInt32(w: int): int {
    if w >= TWO_TO_31 then w - TWO_TO_32 else w
  }

  /** `ParamSignToUInt32` for a signed result: the conversion of the memory at the token, if it uses any character. */
  function Convert(memory: string, token: Token): Option<int>
    requires token.ptr <= |memory|
  {
    var s := memory[token.ptr..];
    var (v, n) :=
      match token.kind
      case HEXNUM => (AsInt32(StrToUL(s, 16).0), StrToUL(s, 16).1)
      case OCTNUM => (AsInt32(StrToUL(s, 8).0), StrToUL(s, 8).1)
      case BINNUM => (AsInt32(StrToUL(s, 2).0), StrToUL(s, 2).1)
      case _ => StrToL(s, 10);
    if n > 0 then Some(v) else None
  }

  datatype IntRead = IntValue(v: int, pos: nat) | Stop(errors: seq<int>)

  /** `SCPI_ParamInt32` on the data `buf`, which lie at the start of `memory`. */
  ghost function ReadInt32(buf: string, memory: string, p: nat, count: nat, mandatory: bool): IntRead
    requires p <= |buf| <= |memory|
  {
    match ReadParameter(Of(buf), p, count)
    case Missing => Stop(ReadErrors(Missing, mandatory))
    case BadSeparator => Stop(ReadErrors(BadSeparator, mandatory))
    case BadData(pos) => Stop(ReadErrors(BadData(pos), mandatory))
    case Got(token, pos) =>
      if token.kind == HEXNUM || token.kind == OCTNUM || token.kind == BINNUM || token.kind == DECIMAL_NUMERIC then
        var v := if token.ptr <= |memory| then Convert(memory, token) else None;
        if v.Some? then IntValue(v.value, pos) else Stop([])
      else if token.kind == DECIMAL_NUMERIC_WITH_SUFFIX then Stop([SUFFIX_NOT_ALLOWED])
      else Stop([DATA_TYPE_ERROR])
  }

  /** Reads one number from a position when so many parameters have been read. */
  type IntReader = (nat, nat, bool) -> IntRead

  ghost function ReaderOf(buf: string, memory: string): IntReader {
    (p: nat, count: nat, mandatory: bool) =>
      if p <= |buf| <= |memory| then ReadInt32(buf, memory, p, count, mandatory) else Stop([])
  }

  /** `SCPI_ParamArrayInt32` for at most `limit` numbers: the numbers, the errors, and whether it succeeds. */
  function ReadInts(read: IntReader, p: nat, count: nat, limit: nat, mandatory: bool): (seq<int>, seq<int>, bool)
    decreases limit
  {
    if limit == 0 then ([], [], !mandatory)
    else
      match read(p, count, mandatory)
      case Stop(errors) => ([], errors, !mandatory)
      case IntValue(v, pos) =>
        var r := ReadInts(read, pos, count + 1, limit - 1, false);
        ([v] + r.0, r.1, r.2)
  }

  lemma ParameterAt(before: string, v: int, more: string, q: nat, count: nat)
    requires IsInt32(v) && Separated(more) && StartsAt(before, q, count, |before|)
    ensures var t, p := NumText(v), |before|;
      ReadParameter(Of(before + t + more), q, count) == Got(Token(DECIMAL_NUMERIC, p, |t|), p + |t|)
  {
    var t, p := NumText(v), |before|;
    var buf := before + t + more;
    assert StartsAt(buf, q, count, p) && q < |buf|;
    ReadElement(Of(buf), q, count, p);
    SignedRoundTrip(before, v, more);
  }

  lemma ConvertAt(before: string, v: int, more: string, tail: string)
    requires IsInt32(v) && Separated(more) && Separated(tail)
    ensures var t, p := NumText(v), |before|;
      Convert(before + t + more + tail, Token(DECIMAL_NUMERIC, p, |t|)) == Some(v)
  {
    var t := NumText(v);
    assert (before + t + more + tail)[|before|..] == t + (more + tail);
    SignedValue(v, more + tail);
  }

  lemma ReadOneInt(buf: string, before: string, v: int, more: string, tail: string, q: nat, count: nat, mandatory: bool)
    requires IsInt32(v) && Separated(more) && Separated(tail) && StartsAt(before, q, count, |before|)
    requires buf == before + NumText(v) + more
    ensures ReadInt32(buf, buf + tail, q, count, mandatory) == IntValue(v, |before| + |NumText(v)|)
  {
    ParameterAt(before, v, more, q, count);
    ConvertAt(before, v, more, tail);
  }

  predicate ReadsNext(read: IntReader, ps: seq<nat>, vals: seq<int>, count: nat, i: nat)
    requires |ps| == |vals| + 1 && i < |vals|
  {
    read(ps[i], count + i, true) == read(ps[i], count + i, false) == IntValue(vals[i], ps[i + 1])
  }

  /** Reading on and on: number `i` is found at `ps[i]`, and behind the last one there is none. */
  lemma {:induction false} ReadsChain(read: IntReader, ps: seq<nat>, vals: seq<int>, count: nat, limit: nat,
        mandatory: bool)
    requires |ps| == |vals| + 1 && |vals| <= limit && (vals == [] ==> !mandatory)
    requires forall i | 0 <= i < |vals| :: ReadsNext(read, ps, vals, count, i)
    requires read(ps[|vals|], count + |vals|, false) == Stop([])
    ensures ReadInts(read, ps[0], count, limit, mandatory) == (vals, [], true)
    decreases |vals|
  {
    if vals != [] {
      assert ReadsNext(read, ps, vals, count, 0);
      var qs, us, c := ps[1..], vals[1..], count + 1;
      forall i | 0 <= i < |us| ensures ReadsNext(read, qs, us, c, i) {
        assert ReadsNext(read, ps, vals, count, i + 1);
      }
      ReadsChain(read, qs, us, c, limit - 1, false);
      assert vals == [vals[0]] + vals[1..];
    }
  }

  /**
   Reading on to a parameter that is no number: the numbers before it are kept, its error is reported, and the array is
   read exactly when it holds a number or need not be there.
   */
  lemma {:induction false} ReadsUntil(read: IntReader, ps: seq<nat>, vals: seq<int>, count: nat, limit: nat,
        mandatory: bool, errors: seq<int>)
    requires |ps| == |vals| + 1 && |vals| < limit
    requires forall i | 0 <= i < |vals| :: ReadsNext(read, ps, vals, count, i)
    requires read(ps[|vals|], count + |vals|, mandatory && vals == []) == Stop(errors)
    ensures ReadInts(read, ps[0], count, limit, mandatory) == (vals, errors, vals != [] || !mandatory)
    decreases |vals|
  {
    if vals != [] {
      assert ReadsNext(read, ps, vals, count, 0);
      var qs, us, c := ps[1..], vals[1..], count + 1;
      forall i | 0 <= i < |us| ensures ReadsNext(read, qs, us, c, i) {
        assert ReadsNext(read, ps, vals, count, i + 1);
      }
      ReadsUntil(read, qs, us, c, limit - 1, false, errors);
      assert vals == [vals[0]] + vals[1..];
    }
  }

  /** The reader reads the data `buf` at the start of `memory`. */
  ghost predicate ReadsAs(read: IntReader, buf: string, memory: string) {
    |buf| <= |memory| && forall p: nat {:trigger Asked(buf, p)} :: Asked(buf, p) && p <= |buf| ==>
      forall count: nat, mandatory: bool :: read(p, count, mandatory) == ReadInt32(buf, memory, p, count, mandatory)
  }

  lemma ReaderReads(buf: string, memory: string)
    requires |buf| <= |memory|
    ensures ReadsAs(ReaderOf(buf, memory), buf, memory)
  {
  }

  lemma ReadsAt(read: IntReader, vals: seq<int>, tail: string, i: nat, mandatory: bool)
    requires AllInt32(vals) && Separated(tail) && i < |vals| && ReadsAs(read, ArrayText(vals), ArrayText(vals) + tail)
    ensures read(Position(vals, i), i, mandatory) == IntValue(vals[i], Position(vals, i + 1))
  {
    var before, more := Around(NumTexts(vals), i, ',');
    ReadsText(read, ArrayText(vals), before, vals[i], more, tail, Position(vals, i), i, mandatory);
  }

  lemma ReadsText(read: IntReader, buf: string, before: string, v: int, more: string, tail: string, q: nat, count: nat,
                  mandatory: bool)
    requires IsInt32(v) && Separated(more) && Separated(tail) && StartsAt(before, q, count, |before|)
    requires buf == before + NumText(v) + more && ReadsAs(read, buf, buf + tail)
    ensures read(q, count, mandatory) == IntValue(v, |before| + |NumText(v)|)
  {
    assert Asked(buf, q);
    ReadOneInt(buf, before, v, more, tail, q, count, mandatory);
  }

  lemma ReadsNoMore(read: IntReader, vals: seq<int>, tail: string)
    requires AllInt32(vals) && ReadsAs(read, ArrayText(vals), ArrayText(vals) + tail)
    ensures read(Position(vals, |vals|), |vals|, false) == Stop([])
  {
    assert Asked(ArrayText(vals), Position(vals, |vals|));
    assert NumTexts(vals)[..|vals|] == NumTexts(vals);
  }

  /** Any reader of the text reads the numbers. */
  lemma ReadsArray(read: IntReader, vals: seq<int>, tail: string, limit: nat)
    requires vals != [] && AllInt32(vals) && Separated(tail) && |vals| <= limit
    requires ReadsAs(read, ArrayText(vals), ArrayText(vals) + tail)
    ensures ReadInts(read, 0, 0, limit, true) == (vals, [], true)
  {
    var ps := seq(|vals| + 1, i requires 0 <= i <= |vals| => Position(vals, i));
    forall i | 0 <= i < |vals|
      ensures ReadsNext(read, ps, vals, 0, i)
    {
      ReadsAt(read, vals, tail, i, true);
      ReadsAt(read, vals, tail, i, false);
    }
    ReadsNoMore(read, vals, tail);
    assert NumTexts(vals)[..0] == [];
    ReadsChain(read, ps, vals, 0, limit, true);
  }

  /** Array round trip: the ASCII output for a non-empty array is read back as the same array. */
  lemma ArrayRoundTrip(vals: seq<int>, tail: string, limit: nat)
    requires vals != [] && AllInt32(vals) && Separated(tail) && |vals| <= limit
    ensures ReadInts(ReaderOf(ArrayText(vals), ArrayText(vals) + tail), 0, 0, limit, true) == (vals, [], true)
  {
    var buf := ArrayText(vals);
    ReaderReads(buf, buf + tail);
    ReadsArray(ReaderOf(buf, buf + tail), vals, tail, limit);
  }

  /** `SCPI_ParamInt32`; behind the program data the memory goes on with `tail`. */
  method ParamInt32(list: ParameterList, tail: string, mandatory: bool, ghost read: IntReader) returns (r: Option<int>)
    requires list.state.InRange() && ReadsAs(read, list.state.buffer, list.state.buffer + tail)
    modifies list, list.state
    ensures list.state.InRange()
    ensures var x := read(old(list.state.pos), old(list.inputCount), mandatory);
      && (x.IntValue? ==> r == Some(x.v) && list.state.pos == x.pos && list.inputCount == old(list.inputCount) + 1)
      && (x.Stop? ==> r == None)
      && list.errors == old(list.errors) + if x.Stop? then x.errors else []
    ensures var x := ReadParameter(Of(list.state.buffer), old(list.state.pos), old(list.inputCount));
      list.state.pos == PosAfter(x, old(list.state.pos)) && list.inputCount == CountAfter(x, old(list.inputCount))
  {
    assert Asked(list.state.buffer, list.state.pos);
    var ok, token := list.Parameter(mandatory);
    if !ok {
      return None;
    }
    if token.kind == HEXNUM || token.kind == OCTNUM || token.kind == BINNUM || token.kind == DECIMAL_NUMERIC {
      var memory := list.state.buffer + tail;
      r := if token.ptr <= |memory| then Convert(memory, token) else None;
    } else if token.kind == DECIMAL_NUMERIC_WITH_SUFFIX {
      list.errors := list.errors + [SUFFIX_NOT_ALLOWED];
      r := None;
    } else {
      list.errors := list.errors + [DATA_TYPE_ERROR];
      r := None;
    }
  }

  lemma Stops(read: IntReader, p: nat, count: nat, limit: nat, mandatory: bool)
    requires limit > 0 && read(p, count, mandatory).Stop?
    ensures ReadInts(read, p, count, limit, mandatory) == ([], read(p, count, mandatory).errors, !mandatory)
  {
  }

  lemma GoesOn(read: IntReader, p: nat, count: nat, limit: nat, mandatory: bool)
    requires limit > 0 && read(p, count, mandatory).IntValue?
    ensures var x := read(p, count, mandatory); var r := ReadInts(read, x.pos, count + 1, limit - 1, false);
      ReadInts(read, p, count, limit, mandatory) == ([x.v] + r.0, r.1, r.2)
  {
  }

  /** One turn of the loop of `SCPI_ParamArrayInt32`. */
  method NextInt(list: ParameterList, tail: string, limit: nat, mandatory: bool, ghost read: IntReader)
        returns (v: Option<int>)
    requires list.state.InRange() && limit > 0 && ReadsAs(read, list.state.buffer, list.state.buffer + tail)
    modifies list, list.state
    ensures list.state.InRange()
    ensures var goal := old(ReadInts(read, list.state.pos, list.inputCount, limit, mandatory));
      if v.None? then goal.0 == [] && list.errors == old(list.errors) + goal.1 && goal.2 == !mandatory
      else var r := ReadInts(read, list.state.pos, list.inputCount, limit - 1, false);
        goal == ([v.value] + r.0, r.1, r.2) && list.errors == old(list.errors)
  {
    ghost var x := read(list.state.pos, list.inputCount, mandatory);
    if x.Stop? {
      Stops(read, list.state.pos, list.inputCount, limit, mandatory);
    } else {
      GoesOn(read, list.state.pos, list.inputCount, limit, mandatory);
    }
    v := ParamInt32(list, tail, mandatory, read);
  }

  /** At the end of the data there is no number to read. */
  lemma NoneToRead(read: IntReader, buf: string, memory: string, count: nat, limit: nat, mandatory: bool)
    requires ReadsAs(read, buf, memory)
    ensures limit > 0 ==>
      ReadInts(read, |buf|, count, limit, mandatory) == ([], if mandatory then [-109] else [], !mandatory)
  {
    assert Asked(buf, |buf|);
  }

  /** `SCPI_ParamArrayInt32`. */
  method ParamArrayInt32(list: ParameterList, tail: string, data: array<int>, format: Format, mandatory0: bool,
                         count0: nat, ghost read: IntReader)
      returns (ok: bool, count: nat)
    requires list.state.InRange() && ReadsAs(read, list.state.buffer, list.state.buffer + tail)
    modifies list, list.state, data
    ensures list.state.InRange()
    ensures format == ASCII ==>
      var r := ReadInts(read, old(list.state.pos), old(list.inputCount), data.Length, mandatory0);
      count <= data.Length && data[..count] == r.0 && list.errors == old(list.errors) + r.1 && ok == r.2
    ensures format == ASCII && data.Length > 0 && old(list.state.pos) == |list.state.buffer| ==>
      count == 0 && ok == !mandatory0 && list.errors == old(list.errors) + if mandatory0 then [-109] else []
    ensures format != ASCII ==>
      && !ok && count == count0 && data[..] == old(data[..]) && list.errors == old(list.errors)
      && list.state.pos == old(list.state.pos) && list.inputCount == old(list.inputCount)
  {
    if format != ASCII {
      return false, count0;
    }
    var mandatory := mandatory0;
    NoneToRead(read, list.state.buffer, list.state.buffer + tail, list.inputCount, data.Length, mandatory0);
    ghost var was := list.errors;
    ghost var goal := ReadInts(read, list.state.pos, list.inputCount, data.Length, mandatory);
    count := 0;
    assert data[..0] + goal.0 == goal.0;
    while count < data.Length
      invariant count <= data.Length && list.state.InRange() && list.errors == was
      invariant var r := ReadInts(read, list.state.pos, list.inputCount, data.Length - count, mandatory);
        goal == (data[..count] + r.0, r.1, r.2)
    {
      ghost var before := data[..count];
      ghost var r := ReadInts(read, list.state.pos, list.inputCount, data.Length - count, mandatory);
      var v := NextInt(list, tail, data.Length - count, mandatory, read);
      if v.None? {
        assert before + [] == before;
        ok := !mandatory;
        return;
      }
      ghost var more := ReadInts(read, list.state.pos, list.inputCount, data.Length - count - 1, false);
      assert before + ([v.value] + more.0) == before + [v.value] + more.0;
      data[count] := v.value;
      mandatory := false;
      count := count + 1;
      assert data[..count] == before + [v.value];
    }
    ok := !mandatory;
  }

  /** Printing an array and reading the parameters back gives the array, whatever separator follows in memory. */
  method ArrayBack(vals: seq<int>, tail: string, data: array<int>) returns (ok: bool, count: nat, errors: seq<int>)
    requires vals != [] && AllInt32(vals) && Separated(tail) && |vals| <= data.Length
    modifies data
    ensures ok && count == |vals| && data[..count] == vals && errors == []
  {
    var r := new Results();
    var n := ResultArrayInt32(r, vals, ASCII);
    assert r.output == ArrayText(vals);
    var list := new ParameterList(r.output);
    ReaderReads(ArrayText(vals), ArrayText(vals) + tail);
    ArrayRoundTrip(vals, tail, data.Length);
    ok, count := ParamArrayInt32(list, tail, data, ASCII, true, 0, ReaderOf(ArrayText(vals), ArrayText(vals) + tail));
    errors := list.errors;
  }
}
