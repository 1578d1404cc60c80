/** Reading the parameters of a unit: `SCPI_Parameter` lexes the program data a second time. */
module Reader {
  import opened Base
  import opened Lexer
  import opened Scanner

  /** A buffer, and the program data element found from each position. */
  datatype Source = Source(text: string, parse: nat -> Parsed)

  /** Elements lie ahead and within the buffer. */
  ghost predicate Sane(b: Source) {
    forall p: nat | p <= |b.text| :: var d := b.parse(p);
      p <= d.pos <= |b.text| && (d.token.kind != UNKNOWN ==> p < End(d) <= d.pos)
  }

  datatype Read = Missing | BadSeparator | BadData(pos: nat) | Got(token: Token, pos: nat)

  function Element(d: Parsed): Read {
    if d.token.kind == UNKNOWN then BadData(d.pos) else Got(d.token, d.pos)
  }

  /** A mandatory read from `p` when `count` parameters have been read. */
  function ReadParameter(b: Source, p: nat, count: nat): Read
    requires p <= |b.text|
  {
    if p == |b.text| then Missing
    else if count == 0 then Element(b.parse(p))
    else if b.text[p] == ',' then Element(b.parse(p + 1))
    else BadSeparator
  }

  /** Successive mandatory reads give exactly these tokens, and the next one finds no parameter. */
  predicate ReadsBack(b: Source, p: nat, count: nat, ts: seq<Token>)
    decreases |ts|
  {
    p <= |b.text| && var r := ReadParameter(b, p, count);
    if ts == [] then r == Missing
    else r.Got? && r.token == ts[0] && ReadsBack(b, r.pos, count + 1, ts[1..])
  }

  /** What the scanner makes of the program data from one element on. */
  function All(b: Source, p: nat): Scanned
    requires Sane(b) && p <= |b.text|
    decreases |b.text| - p
  {
    var d := b.parse(p);
    if d.token.kind == UNKNOWN then Scanned(d.pos, false, 0, -1)
    else if Sees(b.text, d.pos, ',') then Behind(d.ret + 1, 1, All(b, d.pos + 1))
    else Scanned(d.pos, true, d.ret, 1)
  }

  /** The tokens the scanner passes over. */
  function Tokens(b: Source, p: nat): (ts: seq<Token>)
    requires Sane(b) && p <= |b.text|
    ensures ts != []
    decreases |b.text| - p
  {
    var d := b.parse(p);
    [d.token] + if Sees(b.text, d.pos, ',') then Tokens(b, d.pos + 1) else []
  }

  /** Where the last token ends. */
  function LastEnd(b: Source, p: nat): nat
    requires Sane(b) && p <= |b.text|
    decreases |b.text| - p
  {
    var d := b.parse(p);
    if Sees(b.text, d.pos, ',') then LastEnd(b, d.pos + 1) else End(d)
  }

  lemma AllIs(b: Source, p: nat, d: Parsed)
    requires Sane(b) && p <= |b.text| && d == b.parse(p)
    ensures All(b, p) ==
      if d.token.kind == UNKNOWN then Scanned(d.pos, false, 0, -1)
      else if Sees(b.text, d.pos, ',') then Behind(d.ret + 1, 1, All(b, d.pos + 1))
      else Scanned(d.pos, true, d.ret, 1)
  {
  }

  lemma {:induction false} LastEndSpan(b: Source, p: nat)
    requires Sane(b) && p <= |b.text| && All(b, p).ok
    ensures p < LastEnd(b, p) <= All(b, p).pos
    ensures |Tokens(b, p)| == All(b, p).count
    ensures var t := Tokens(b, p)[|Tokens(b, p)| - 1]; t.ptr + t.len == LastEnd(b, p)
    decreases |b.text| - p
  {
    var d := b.parse(p);
    if Sees(b.text, d.pos, ',') {
      LastEndSpan(b, d.pos + 1);
    }
  }

  /** Whatever is read lies within the buffer. */
  lemma {:induction false} ReadsWithin(b: Source, p: nat, count: nat, ts: seq<Token>)
    requires Sane(b) && ts != [] && ReadsBack(b, p, count, ts)
    ensures var t := ts[|ts| - 1]; t.ptr + t.len <= |b.text|
    decreases |ts|
  {
    var r := ReadParameter(b, p, count);
    if |ts| > 1 {
      ReadsWithin(b, r.pos, count + 1, ts[1..]);
    }
  }

  /** `a` is `b` cut: a token that lies within `a` is found there too, with what remains of the blanks behind it. */
  ghost predicate CutOf(a: Source, b: Source) {
    && |a.text| <= |b.text| && (forall i: nat | i < |a.text| :: a.text[i] == b.text[i])
    && forall p: nat | p <= |a.text| :: var d := b.parse(p);
      d.token.kind != UNKNOWN && End(d) <= |a.text| ==>
        a.parse(p).token == d.token && a.parse(p).pos == Min(d.pos, |a.text|)
  }

  /** Where the element at `p` is looked for: at the comma before it, unless it is the first. */
  predicate StartsAt(s: string, q: nat, count: nat, p: nat) {
    if count == 0 then q == p else q + 1 == p && Sees(s, q, ',')
  }

  lemma ReadElement(b: Source, q: nat, count: nat, p: nat)
    requires q < |b.text| && StartsAt(b.text, q, count, p)
    ensures ReadParameter(b, q, count) == Element(b.parse(p))
  {
  }

  lemma ReadOne(a: Source, b: Source, q: nat, count: nat, p: nat)
    requires Sane(b) && CutOf(a, b) && p <= |a.text| && StartsAt(b.text, q, count, p)
    requires b.parse(p).token.kind != UNKNOWN && End(b.parse(p)) <= |a.text|
    ensures q < |a.text| && ReadParameter(a, q, count) == Got(b.parse(p).token, Min(b.parse(p).pos, |a.text|))
  {
  }

  lemma Cons(a: Source, q: nat, count: nat, token: Token, pos: nat, ts: seq<Token>)
    requires q <= |a.text| && ReadParameter(a, q, count) == Got(token, pos) && ReadsBack(a, pos, count + 1, ts)
    ensures ReadsBack(a, q, count, [token] + ts)
  {
    assert ([token] + ts)[1..] == ts;
  }

  /** The last token is within the cut buffer, and the element at `p` is looked for at `q`. */
  ghost predicate Within(a: Source, b: Source, q: nat, count: nat, p: nat) {
    && Sane(a) && Sane(b) && CutOf(a, b) && p <= |a.text| && StartsAt(b.text, q, count, p)
    && All(b, p).ok && LastEnd(b, p) <= |a.text| <= All(b, p).pos
  }

  lemma NextWithin(a: Source, b: Source, q: nat, count: nat, p: nat, d: Parsed)
    requires Within(a, b, q, count, p) && d == b.parse(p) && Sees(b.text, d.pos, ',')
    ensures d.token.kind != UNKNOWN && p <= d.pos < |a.text| && Within(a, b, d.pos, count + 1, d.pos + 1)
  {
    LastEndSpan(b, d.pos + 1);
  }

  /** When the last token is within the cut buffer, all of them are read back from it. */
  lemma {:induction false} ReadsAll(a: Source, b: Source, q: nat, count: nat, p: nat)
    requires Within(a, b, q, count, p)
    ensures ReadsBack(a, q, count, Tokens(b, p))
    decreases |a.text| - p
  {
    var d := b.parse(p);
    if Sees(b.text, d.pos, ',') {
      NextWithin(a, b, q, count, p, d);
      ReadsAll(a, b, d.pos, count + 1, d.pos + 1);
      ReadsFirst(a, b, q, count, p, d);
    } else {
      ReadsLast(a, b, q, count, p);
    }
  }

  lemma ReadsFirst(a: Source, b: Source, q: nat, count: nat, p: nat, d: Parsed)
    requires Sane(b) && CutOf(a, b) && p <= |a.text| && StartsAt(b.text, q, count, p) && d == b.parse(p)
    requires d.token.kind != UNKNOWN && Sees(b.text, d.pos, ',') && d.pos < |a.text|
    requires ReadsBack(a, d.pos, count + 1, Tokens(b, d.pos + 1))
    ensures ReadsBack(a, q, count, Tokens(b, p))
  {
    ReadOne(a, b, q, count, p);
    Cons(a, q, count, d.token, d.pos, Tokens(b, d.pos + 1));
  }

  lemma ReadsLast(a: Source, b: Source, q: nat, count: nat, p: nat)
    requires Sane(b) && CutOf(a, b) && p <= |a.text| && StartsAt(b.text, q, count, p) && All(b, p).ok
    requires LastEnd(b, p) <= |a.text| <= b.parse(p).pos && !Sees(b.text, b.parse(p).pos, ',')
    ensures ReadsBack(a, q, count, Tokens(b, p))
  {
    var d := b.parse(p);
    ReadOne(a, b, q, count, p);
    Cons(a, q, count, d.token, |a.text|, []);
    assert [d.token] + [] == [d.token];
  }

  /** Scanner and reader agree exactly when no byte of the last token is cut off. */
  lemma ReaderAgrees(a: Source, b: Source, p: nat)
    requires Sane(a) && Sane(b) && CutOf(a, b) && p <= |a.text| && All(b, p).ok && |a.text| <= All(b, p).pos
    ensures ReadsBack(a, p, 0, Tokens(b, p)) <==> LastEnd(b, p) <= |a.text|
  {
    if LastEnd(b, p) <= |a.text| {
      ReadsAll(a, b, p, 0, p);
    } else if ReadsBack(a, p, 0, Tokens(b, p)) {
      LastEndSpan(b, p);
      ReadsWithin(a, p, 0, Tokens(b, p));
    }
  }

  function FarToken(t: Token, n: nat): Token {
    Token(t.kind, n + t.ptr, t.len)
  }

  function Far(ts: seq<Token>, n: nat): (r: seq<Token>)
    ensures |r| == |ts|
  {
    seq(|ts|, i requires 0 <= i < |ts| => FarToken(ts[i], n))
  }

  /** `b` is `a` with `n` bytes in front. */
  ghost predicate ShiftOf(a: Source, b: Source, n: nat) {
    && |b.text| == n + |a.text| && (forall i: nat | i < |a.text| :: b.text[n + i] == a.text[i])
    && forall p: nat | p <= |a.text| :: var d := a.parse(p);
      b.parse(n + p).token == FarToken(d.token, n) && b.parse(n + p).pos == n + d.pos
  }

  /** Reading program data from a copy of them gives the same tokens, counted from their start. */
  lemma {:induction false} ReadsBackShift(a: Source, b: Source, n: nat, p: nat, count: nat, ts: seq<Token>)
    requires ShiftOf(a, b, n) && p <= |a.text|
    ensures ReadsBack(b, n + p, count, Far(ts, n)) <==> ReadsBack(a, p, count, ts)
    decreases |ts|
  {
    var r := ReadParameter(a, p, count);
    var r' := ReadParameter(b, n + p, count);
    assert r.Got? <==> r'.Got?;
    assert r.Missing? <==> r'.Missing?;
    if ts != [] && r.Got? {
      assert r' == Got(FarToken(r.token, n), n + r.pos);
      assert Far(ts, n)[1..] == Far(ts[1..], n);
      assert Far(ts, n)[0] == FarToken(ts[0], n);
      if r.pos <= |a.text| {
        ReadsBackShift(a, b, n, r.pos, count + 1, ts[1..]);
      }
    }
  }

  predicate BlankAt(s: string, p: nat) {
    p < |s| && In(s[p], Blank)
  }

  /** The length of an element counts all of its bytes, but for the blanks behind an unsuffixed decimal number. */
  ghost predicate Counted(b: Source) {
    forall p: nat | p <= |b.text| && b.parse(p).token.kind != UNKNOWN :: var d := b.parse(p);
      d.ret == d.pos - p || (d.token.kind == DECIMAL_NUMERIC && BlankAt(b.text, End(d)))
  }

  /** No unsuffixed decimal number is followed by a blank. */
  ghost predicate NoBlankBehindDecimal(b: Source, ts: seq<Token>) {
    forall i | 0 <= i < |ts| :: ts[i].kind == DECIMAL_NUMERIC ==> !BlankAt(b.text, ts[i].ptr + ts[i].len)
  }

  lemma {:induction false} AllCounted(b: Source, p: nat)
    requires Sane(b) && Counted(b) && p <= |b.text| && All(b, p).ok && NoBlankBehindDecimal(b, Tokens(b, p))
    ensures p + All(b, p).len == All(b, p).pos
    decreases |b.text| - p
  {
    var d := b.parse(p);
    AllIs(b, p, d);
    assert Tokens(b, p)[0] == d.token;
    if Sees(b.text, d.pos, ',') {
      TokensTail(b, p, d);
      AllCounted(b, d.pos + 1);
    }
  }

  lemma TokensTail(b: Source, p: nat, d: Parsed)
    requires Sane(b) && p <= |b.text| && d == b.parse(p) && Sees(b.text, d.pos, ',')
    requires NoBlankBehindDecimal(b, Tokens(b, p))
    ensures NoBlankBehindDecimal(b, Tokens(b, d.pos + 1))
  {
    var ts := Tokens(b, d.pos + 1);
    var all := Tokens(b, p);
    assert all == [d.token] + ts;
    forall i | 0 <= i < |ts| && ts[i].kind == DECIMAL_NUMERIC ensures !BlankAt(b.text, ts[i].ptr + ts[i].len) {
      assert all[i + 1] == ts[i];
    }
  }
}
