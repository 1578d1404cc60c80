/** Definite-length blocks, section 7.7.6 of IEEE 488.2: writing them in pieces and reading them back. */
module Blocks {
  import opened Base
  import opened Lexer
  import opened Scanner
  import opened IntegerText
  import opened Numbers
  import opened Results
  import opened Joining
  import opened ErrorCodes

  const BLOCK_LIMIT := 1_000_000_000

  /** `#`, the number of digits, and the length. */
  function BlockHeader(len: nat): string
    requires len < BLOCK_LIMIT
  {
    HeaderDigits(len);
    "#" + [DigitChar(|Digits(len, 10)|)] + Digits(len, 10)
  }

  /** A length below the limit has at most nine digits. */
  lemma HeaderDigits(len: nat)
    requires len < BLOCK_LIMIT
    ensures 0 < |Digits(len, 10)| <= 9
  {
    if len > 0 {
      DigitsRange(len, 10);
      Powers();
      if |Digits(len, 10)| > 9 {
        PowMono(10, 9, |Digits(len, 10)| - 1);
      }
    }
  }

  /** The ten bytes for the decimal text of a length have room for its NUL exactly below the limit. */
  lemma HeaderTerminated(len: nat)
    ensures NUL !in Digits(len, 10)
    ensures |Digits(len, 10)| < 10 <==> len < BLOCK_LIMIT
  {
    DigitsAreDigits(len);
    if len < BLOCK_LIMIT {
      HeaderDigits(len);
    } else if |Digits(len, 10)| < 10 {
      DigitsRange(len, 10);
      Powers();
      PowMono(10, |Digits(len, 10)|, 9);
      assert false;
    }
  }

  /** Reading the digits of a length from number `k` on gives the whole length. */
  lemma {:induction false} LengthDigitsOf(before: string, t: string, rest: string, k: nat)
    requires k <= |t| && forall i | 0 <= i < |t| :: IsDigit(t[i])
    ensures LengthDigits(before + t + rest, |before| + k, |t| - k, Value(t[..k], 10)) ==
      (|before| + |t|, 0, Value(t, 10))
    decreases |t| - k
  {
    if k < |t| {
      var s := before + t + rest;
      assert s[|before| + k] == t[k];
      assert t[..k + 1] == t[..k] + [t[k]];
      ValueSnoc(t[..k], t[k], 10);
      assert DigitValue(t[k]) == t[k] as int - '0' as int;
      LengthDigitsOf(before, t, rest, k + 1);
    } else {
      assert t[..k] == t;
    }
  }

  lemma DigitsAreDigits(len: nat)
    ensures forall i | 0 <= i < |Digits(len, 10)| :: IsDigit(Digits(len, 10)[i])
  {
    DigitsAllDigits(len, 10);
    forall i | 0 <= i < |Digits(len, 10)| ensures IsDigit(Digits(len, 10)[i]) {
      DigitInClass(Digits(len, 10)[i], 10);
    }
  }

  lemma LengthOf(before: string, len: nat, rest: string)
    requires len < BLOCK_LIMIT
    ensures var t := Digits(len, 10);
      LengthDigits(before + t + rest, |before|, |t|, 0) == (|before| + |t|, 0, len)
  {
    var t := Digits(len, 10);
    DigitsAreDigits(len);
    LengthDigitsOf(before, t, rest, 0);
    assert t[..0] == [];
    DigitsValue(len, 10);
  }

  /** A block is lexed as its payload, whatever bytes that holds and whatever follows. */
  lemma BlockLexed(before: string, payload: string, rest: string)
    requires |payload| < BLOCK_LIMIT
    ensures var h := BlockHeader(|payload|);
      LexArbitraryBlockProgramData(before + h + payload + rest, |before|) ==
        Lexed(|before| + |h| + |payload|, Token(ARBITRARY_BLOCK, |before| + |h|, |payload|))
  {
    var len := |payload|;
    var t, h := Digits(len, 10), BlockHeader(len);
    HeaderDigits(len);
    var s, p := before + h + payload + rest, |before|;
    var front := before + "#" + [DigitChar(|t|)];
    assert s == front + t + (payload + rest);
    LengthOf(front, len, payload + rest);
    assert s[p] == '#' && s[p + 1] == DigitChar(|t|);
    assert DigitChar(|t|) as int - '0' as int == |t|;
  }

  /** At a number sign with a digit behind it only the block recogniser can succeed. */
  lemma AtBlock(s: string, p: nat)
    requires p + 1 < |s| && s[p] == '#' && IsDigit(s[p + 1])
    requires LexArbitraryBlockProgramData(s, p).token.kind == ARBITRARY_BLOCK
    ensures var l := LexArbitraryBlockProgramData(s, p);
      FirstFrom(0, s, p) == Parsed(l.pos, l.token, l.token.len + (l.token.ptr - p))
  {
    assert Try(0, s, p) == Parsed(p, Token(UNKNOWN, p, 0), 0);
    assert Try(1, s, p) == Parsed(p, Token(UNKNOWN, p, 0), 0);
    assert Run(s, p, Digit) == p;
    assert Decimal(s, p) == p;
    assert Try(2, s, p) == Parsed(p, Token(UNKNOWN, p, 0), 0);
    assert Try(3, s, p) == Parsed(p, Token(UNKNOWN, p, 0), 0);
    assert FirstFrom(0, s, p) == FirstFrom(4, s, p);
  }

  /** A block is one element of program data, and its token is the payload. */
  lemma BlockRoundTrip(before: string, payload: string, rest: string)
    requires |payload| < BLOCK_LIMIT
    ensures var h := BlockHeader(|payload|); var d := ParseData(before + h + payload + rest, |before|);
      d.token == Token(ARBITRARY_BLOCK, |before| + |h|, |payload|)
    ensures var h := BlockHeader(|payload|); var s := before + h + payload + rest;
      s[|before| + |h|..|before| + |h| + |payload|] == payload
    ensures var h := BlockHeader(|payload|); var n := |h| + |payload|;
      (rest == "" || !In(rest[0], Blank)) ==> var d := ParseData(before + h + payload + rest, |before|);
        d.pos == |before| + n && d.ret == n
  {
    var h := BlockHeader(|payload|);
    BlockElement(before, h, payload, rest);
    BlockBytes(before, h, payload, rest);
  }

  lemma BlockElement(before: string, h: string, payload: string, rest: string)
    requires |payload| < BLOCK_LIMIT && h == BlockHeader(|payload|)
    ensures var p, n := |before|, |h| + |payload|; var d := ParseData(before + h + payload + rest, p);
      && d.token == Token(ARBITRARY_BLOCK, p + |h|, |payload|)
      && (rest == "" || !In(rest[0], Blank) ==> d.pos == p + n && d.ret == n)
  {
    var s, p, n := before + h + payload + rest, |before|, |h| + |payload|;
    var d := Parsed(p + n, Token(ARBITRARY_BLOCK, p + |h|, |payload|), n);
    FirstIsBlock(s, before, h, payload, rest, d);
    ParseDataIsFirst(s, p, d);
    NoBlankBehind(before + h + payload, rest);
  }

  lemma NoBlankBehind(front: string, rest: string)
    ensures rest == "" || !In(rest[0], Blank) ==> Run(front + rest, |front|, Blank) == |front|
  {
    if rest != "" {
      assert (front + rest)[|front|] == rest[0];
    }
  }

  lemma FirstIsBlock(s: string, before: string, h: string, payload: string, rest: string, d: Parsed)
    requires |payload| < BLOCK_LIMIT && h == BlockHeader(|payload|) && s == before + h + payload + rest
    requires d == Parsed(|before| + |h| + |payload|, Token(ARBITRARY_BLOCK, |before| + |h|, |payload|), |h| + |payload|)
    ensures Run(s, |before|, Blank) == |before| && FirstFrom(0, s, |before|) == d
  {
    BlockLexed(before, payload, rest);
    HeaderDigits(|payload|);
    assert s[|before|] == h[0] && s[|before| + 1] == h[1];
    AtBlock(s, |before|);
  }

  lemma BlockBytes(before: string, h: string, payload: string, rest: string)
    ensures (before + h + payload + rest)[|before| + |h|..|before| + |h| + |payload|] == payload
  {
  }

  /** `SCPI_ResultArbitraryBlockHeader`; for longer blocks the ten-byte number buffer holds no terminator. */
  method ResultArbitraryBlockHeader(r: Results, len: nat) returns (result: nat)
    requires len < BLOCK_LIMIT
    modifies r`output, r`arbitraryRemaining
    ensures r.output == old(r.output + r.Delimiter()) + BlockHeader(len)
    ensures r.arbitraryRemaining == len && |r.output| == |old(r.output)| + result
  {
    var number := new char[10];
    var n := UInt32ToStrBaseSign(len, number, 10, 10, false);
    HeaderDigits(len);
    var header := "#" + [(n + 48) as char] + number[..n];
    r.arbitraryRemaining := len;
    result := r.WriteDelimiter();
    var m := r.Write(header);
    result := result + m;
  }

  /** `SCPI_ResultArbitraryBlockData`. */
  method ResultArbitraryBlockData(r: Results, data: string) returns (n: nat)
    modifies r`output, r`outputCount, r`arbitraryRemaining, r`errors
    ensures if |data| > old(r.arbitraryRemaining) then
        && r.errors == old(r.errors) + [SYSTEM_ERROR] == old(r.errors) + [-310] && r.output == old(r.output)
        && r.outputCount == old(r.outputCount) && r.arbitraryRemaining == old(r.arbitraryRemaining)
      else
        && r.errors == old(r.errors) && r.output == old(r.output) + data
        && r.arbitraryRemaining == old(r.arbitraryRemaining) - |data|
        && r.outputCount == old(r.outputCount) + if r.arbitraryRemaining == 0 then 1 else 0
    ensures |r.output| == |old(r.output)| + n
  {
    n := 0;
    if r.arbitraryRemaining < |data| {
      r.errors := r.errors + [SYSTEM_ERROR];
      return;
    }
    r.arbitraryRemaining := r.arbitraryRemaining - |data|;
    if r.arbitraryRemaining == 0 {
      r.outputCount := r.outputCount + 1;
    }
    n := r.Write(data);
  }

  /** The data accepted of a sequence of pieces, when `remaining` bytes are still missing. */
  function Accepted(remaining: nat, pieces: seq<string>): string
    decreases |pieces|
  {
    if pieces == [] then ""
    else if |pieces[0]| > remaining then Accepted(remaining, pieces[1..])
    else pieces[0] + Accepted(remaining - |pieces[0]|, pieces[1..])
  }

  /** Any sequence of data calls. */
  method ResultArbitraryBlockPieces(r: Results, pieces: seq<string>)
    modifies r`output, r`outputCount, r`arbitraryRemaining, r`errors
    ensures r.output == old(r.output) + Accepted(old(r.arbitraryRemaining), pieces)
    ensures |Accepted(old(r.arbitraryRemaining), pieces)| + r.arbitraryRemaining == old(r.arbitraryRemaining)
    decreases |pieces|
  {
    if pieces != [] {
      var n := ResultArbitraryBlockData(r, pieces[0]);
      ResultArbitraryBlockPieces(r, pieces[1..]);
    }
  }

  /**
   No more than the declared length is accepted, and all of it if it fits; a complete block reads back as its pieces.
   */
  lemma BlockConserved(before: string, len: nat, pieces: seq<string>, rest: string)
    requires len < BLOCK_LIMIT
    ensures |Accepted(len, pieces)| <= len
    ensures |Flat(pieces)| <= len ==> Accepted(len, pieces) == Flat(pieces)
    ensures var data, h := Accepted(len, pieces), BlockHeader(len);
      |data| == len ==>
        && ParseData(before + h + data + rest, |before|).token == Token(ARBITRARY_BLOCK, |before| + |h|, len)
        && (before + h + data + rest)[|before| + |h|..|before| + |h| + len] == data
  {
    AcceptedFits(len, pieces);
    if |Flat(pieces)| <= len {
      AllAccepted(len, pieces);
    }
    var data := Accepted(len, pieces);
    if |data| == len {
      BlockRoundTrip(before, data, rest);
    }
  }

  lemma {:induction false} AcceptedFits(remaining: nat, pieces: seq<string>)
    ensures |Accepted(remaining, pieces)| <= remaining
    decreases |pieces|
  {
    if pieces != [] {
      if |pieces[0]| > remaining {
        AcceptedFits(remaining, pieces[1..]);
      } else {
        AcceptedFits(remaining - |pieces[0]|, pieces[1..]);
      }
    }
  }

  /** Nothing is refused when the pieces fit. */
  lemma {:induction false} AllAccepted(remaining: nat, pieces: seq<string>)
    requires |Flat(pieces)| <= remaining
    ensures Accepted(remaining, pieces) == Flat(pieces)
    decreases |pieces|
  {
    if pieces != [] {
      AllAccepted(remaining - |pieces[0]|, pieces[1..]);
    }
  }

  function Reversed(s: string): (r: string)
    ensures |r| == |s|
  {
    if s == "" then "" else Reversed(s[1..]) + [s[0]]
  }

  /** The last byte comes first. */
  lemma {:induction false} ReversedAt(s: string, i: nat)
    requires i < |s|
    ensures Reversed(s)[i] == s[|s| - 1 - i]
  {
    if i < |s| - 1 {
      ReversedAt(s[1..], i);
    }
  }

  /** The items in the byte order asked for. */
  function Ordered(items: seq<string>, native: bool): (r: seq<string>)
    ensures |r| == |items|
  {
    if native then items else seq(|items|, i requires 0 <= i < |items| => Reversed(items[i]))
  }

  predicate SameSize(items: seq<string>, size: nat) {
    forall i | 0 <= i < |items| :: |items[i]| == size
  }

  lemma {:induction false} FlatLength(items: seq<string>, size: nat)
    requires SameSize(items, size)
    ensures |Flat(items)| == |items| * size
  {
    if items != [] {
      FlatLength(items[1..], size);
      assert (|items| - 1) * size + size == |items| * size;
    }
  }

  /** Item `k` lies behind the `k` items before it. */
  lemma {:induction false} FlatItem(items: seq<string>, size: nat, k: nat)
    requires SameSize(items, size) && k < |items|
    ensures 0 <= k * size && (k + 1) * size <= |Flat(items)| && Flat(items)[k * size..(k + 1) * size] == items[k]
  {
    FlatLength(items, size);
    if k > 0 {
      FlatItem(items[1..], size, k - 1);
      assert k * size == size + (k - 1) * size && (k + 1) * size == size + k * size;
      assert Flat(items)[size..] == Flat(items[1..]);
    } else {
      FlatLength(items[1..], size);
      assert 0 * size == 0 && 1 * size == size;
    }
  }

  lemma {:induction false} FlatSnoc(items: seq<string>, item: string)
    ensures Flat(items + [item]) == Flat(items) + item
  {
    if items == [] {
      assert [] + [item] == [item] && [item][1..] == [];
    } else {
      assert (items + [item])[1..] == items[1..] + [item];
      FlatSnoc(items[1..], item);
    }
  }

  lemma FlatPrefix(items: seq<string>, i: nat)
    requires i < |items|
    ensures Flat(items[..i + 1]) == Flat(items[..i]) + items[i]
  {
    assert items[..i + 1] == items[..i] + [items[i]];
    FlatSnoc(items[..i], items[i]);
  }

  lemma {:induction false} SingleBytes(items: seq<string>)
    requires SameSize(items, 1)
    ensures Ordered(items, false) == items
  {
    forall i | 0 <= i < |items| ensures Reversed(items[i]) == items[i] {
      assert items[i] == [items[i][0]] && items[i][1..] == "";
    }
  }

  lemma FlatRest(items: seq<string>, i: nat)
    requires i < |items|
    ensures |Flat(items[i..])| == |items[i]| + |Flat(items[i + 1..])|
    ensures i + 1 < |items| ==> |Flat(items[i + 1..])| >= |items[i + 1]|
    ensures i + 1 == |items| ==> Flat(items[i + 1..]) == ""
  {
    assert items[i..][1..] == items[i + 1..];
    assert i + 1 < |items| ==> items[i + 1..][0] == items[i + 1];
  }

  /** The loop over the items in the other byte order. */
  method SwappedItems(r: Results, items: seq<string>, size: nat) returns (result: nat)
    requires SameSize(items, size) && size > 0 && r.arbitraryRemaining == |items| * size
    modifies r`output, r`outputCount, r`arbitraryRemaining, r`errors
    ensures r.output == old(r.output) + Flat(Ordered(items, false)) && r.arbitraryRemaining == 0
    ensures r.errors == old(r.errors) && r.outputCount == old(r.outputCount) + if items == [] then 0 else 1
    ensures |r.output| == |old(r.output)| + result
  {
    result := 0;
    ghost var all := Ordered(items, false);
    FlatLength(all, size);
    assert all[0..] == all && all[..0] == [];
    for i := 0 to |items|
      invariant r.output == old(r.output) + Flat(all[..i]) && r.errors == old(r.errors)
      invariant r.arbitraryRemaining == |Flat(all[i..])| && |r.output| == |old(r.output)| + result
      invariant r.outputCount == old(r.outputCount) + if 0 < i == |items| then 1 else 0
    {
      FlatPrefix(all, i);
      FlatRest(all, i);
      var n := ResultArbitraryBlockData(r, Reversed(items[i]));
      result := result + n;
    }
    assert all[..|items|] == all;
  }

  /**
   `produceResultArrayBinary`: a block of items of 1, 2, 4 or 8 bytes in either byte order always comes to its end.
   */
  method ProduceResultArrayBinary(r: Results, items: seq<string>, size: nat, native: bool) returns (result: nat)
    requires SameSize(items, size) && |items| * size < BLOCK_LIMIT
    modifies r`output, r`outputCount, r`arbitraryRemaining, r`errors
    ensures size in {1, 2, 4, 8} ==>
      && r.output == old(r.output + r.Delimiter()) + BlockHeader(|items| * size) + Flat(Ordered(items, native))
      && r.arbitraryRemaining == 0 && r.errors == old(r.errors)
      && r.outputCount == old(r.outputCount) + if native || size == 1 || items != [] then 1 else 0
    ensures size !in {1, 2, 4, 8} ==>
      r.output == old(r.output) && r.errors == old(r.errors) + [SYSTEM_ERROR] && r.outputCount == old(r.outputCount)
    ensures |r.output| == |old(r.output)| + result
  {
    result := 0;
    if size != 1 && size != 2 && size != 4 && size != 8 {
      r.errors := r.errors + [SYSTEM_ERROR];
      return;
    }
    FlatLength(items, size);
    result := ResultArbitraryBlockHeader(r, |items| * size);
    var n;
    if native || size == 1 {
      if size == 1 {
        SingleBytes(items);
      }
      n := ResultArbitraryBlockData(r, Flat(items));
    } else {
      n := SwappedItems(r, items, size);
    }
    result := result + n;
  }

  /** An array of items in either byte order reads back as one block holding exactly these bytes. */
  lemma ArrayBlockRoundTrip(before: string, items: seq<string>, size: nat, native: bool, rest: string)
    requires SameSize(items, size) && |items| * size < BLOCK_LIMIT
    ensures var h := BlockHeader(|items| * size); var data := Flat(Ordered(items, native));
      && ParseData(before + h + data + rest, |before|).token == Token(ARBITRARY_BLOCK, |before| + |h|, |items| * size)
      && (before + h + data + rest)[|before| + |h|..|before| + |h| + |data|] == data
  {
    FlatLength(Ordered(items, native), size);
    BlockRoundTrip(before, Flat(Ordered(items, native)), rest);
  }
}
