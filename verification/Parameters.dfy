/** `SCPI_Parameter` on the program data of a unit. */
module Parameters {
  import opened Base
  import opened Lexer
  import opened Scanner
  import opened Spans
  import opened Reader
  import Cutting
  import Shifting
  import opened ErrorCodes

  /** The elements of a text, as `scpiParser_parseProgramData` finds them. */
  ghost function Of(s: string): Source {
    Source(s, (p: nat) => if p <= |s| then ParseData(s, p) else Parsed(p, Token(UNKNOWN, p, 0), 0))
  }

  lemma ElementSpan(s: string, p: nat)
    requires p <= |s|
    ensures var d := ParseData(s, p); d.token.kind != UNKNOWN ==> p <= d.token.ptr && p < End(d) <= d.pos
  {
    ParseDataIs(s, p);
    var w := Run(s, p, Blank);
    if FirstFrom(0, s, w).token.kind != UNKNOWN {
      Cutting.FirstBegins(0, s, w);
      FirstEnds(0, s, w);
    }
  }

  lemma {:induction false} FirstEnds(i: nat, t: string, p: nat)
    requires p <= |t| && i <= 5 && FirstFrom(i, t, p).token.kind != UNKNOWN
    ensures p < End(FirstFrom(i, t, p))
    decreases 6 - i
  {
    TryEnds(i, t, p);
    if Try(i, t, p).ret == 0 && i < 5 {
      FirstEnds(i + 1, t, Try(i, t, p).pos);
    }
  }

  lemma TryEnds(i: nat, t: string, p: nat)
    requires p <= |t| && i <= 5
    ensures Try(i, t, p).token.kind != UNKNOWN && (Try(i, t, p).ret > 0 || i == 5) ==> p < End(Try(i, t, p))
  {
    if i == 0 {
      NondecimalEnds(t, p);
    } else if i == 2 {
      DecimalEnds(t, p);
    } else if i == 4 {
      BlockEnds(t, p);
    }
  }

  lemma NondecimalEnds(t: string, p: nat)
    requires p <= |t|
    ensures Try(0, t, p).ret > 0 ==> p < End(Try(0, t, p))
  {
  }

  lemma DecimalEnds(t: string, p: nat)
    requires p <= |t|
    ensures Try(2, t, p).ret > 0 ==> p < End(Try(2, t, p))
  {
  }

  lemma BlockEnds(t: string, p: nat)
    requires p <= |t|
    ensures Try(4, t, p).token.kind != UNKNOWN ==> p < End(Try(4, t, p))
  {
  }

  lemma OfSane(s: string)
    ensures Sane(Of(s))
  {
    forall p: nat | p <= |s|
      ensures var d := Of(s).parse(p); p <= d.pos <= |s| && (d.token.kind != UNKNOWN ==> p < End(d) <= d.pos)
    {
      ElementSpan(s, p);
    }
  }

  lemma {:induction false} OfAll(s: string, p: nat)
    requires p <= |s| && Sane(Of(s))
    ensures All(Of(s), p) == AllData(s, p)
    decreases |s| - p
  {
    var d := ParseData(s, p);
    AllDataCases(s, p);
    AllIs(Of(s), p, d);
    if Sees(s, d.pos, ',') && d.token.kind != UNKNOWN {
      OfAll(s, d.pos + 1);
    }
  }

  lemma OfCut(s: string, x: string)
    ensures CutOf(Of(s), Of(s + x))
  {
    var a, b := Of(s), Of(s + x);
    forall p: nat | p <= |s| && b.parse(p).token.kind != UNKNOWN && End(b.parse(p)) <= |s|
      ensures a.parse(p).token == b.parse(p).token && a.parse(p).pos == Min(b.parse(p).pos, |s|)
    {
      Cutting.ParseDataCut(s, x, p);
    }
  }

  lemma OfShift(x: string, s: string)
    ensures ShiftOf(Of(s), Of(x + s), |x|)
  {
    var a, b := Of(s), Of(x + s);
    forall p: nat | p <= |s|
      ensures b.parse(|x| + p).token == FarToken(a.parse(p).token, |x|) && b.parse(|x| + p).pos == |x| + a.parse(p).pos
    {
      Shifting.ParseDataShift(x, s, p);
    }
  }

  function Near(ts: seq<Token>, n: nat): (r: seq<Token>)
    requires forall t | t in ts :: n <= t.ptr
    ensures |r| == |ts| && Far(r, n) == ts
  {
    seq(|ts|, i requires 0 <= i < |ts| => Token(ts[i].kind, ts[i].ptr - n, ts[i].len))
  }

  lemma {:induction false} TokensAhead(s: string, p: nat)
    requires p <= |s| && Sane(Of(s)) && All(Of(s), p).ok
    ensures forall t | t in Tokens(Of(s), p) :: p <= t.ptr
    decreases |s| - p
  {
    var b := Of(s);
    var d := b.parse(p);
    ElementSpan(s, p);
    if Sees(s, d.pos, ',') {
      TokensAhead(s, d.pos + 1);
    }
  }

  /** The program data of a unit hold the tokens; reading them back gives exactly these and then misses a parameter. */
  ghost predicate Agrees(s: string, w: nat, len: nat)
    requires Sane(Of(s)) && w + len <= |s| && All(Of(s), w).ok
  {
    (forall t | t in Tokens(Of(s), w) :: w <= t.ptr) && ReadsBack(Of(s[w..w + len]), 0, 0, Near(Tokens(Of(s), w), w))
  }

  lemma AgreesCut(s: string, w: nat, len: nat)
    requires Sane(Of(s)) && w + len <= |s| && All(Of(s), w).ok
    ensures Agrees(s, w, len) <==> ReadsBack(Of(s[..w + len]), w, 0, Tokens(Of(s), w))
  {
    var ts := Tokens(Of(s), w);
    TokensAhead(s, w);
    var a, b := s[w..w + len], s[..w + len];
    assert |s[..w]| == w && b == s[..w] + a;
    OfShift(s[..w], a);
    NearReads(Of(a), Of(b), w, Near(ts, w), ts);
  }

  lemma NearReads(a: Source, b: Source, w: nat, near: seq<Token>, ts: seq<Token>)
    requires ShiftOf(a, b, w) && Far(near, w) == ts
    ensures ReadsBack(a, 0, 0, near) <==> ReadsBack(b, w, 0, ts)
  {
    ReadsBackShift(a, b, w, 0, 0, near);
  }

  /**
   The data of a scanned unit are read back exactly when the bytes left out of their length are blanks at their end.
   */
  lemma ScannerReaderAgree(s: string, w: nat)
    requires w <= |s| && AllData(s, w).ok
    ensures Sane(Of(s)) && All(Of(s), w) == AllData(s, w) && w + AllData(s, w).len <= |s|
    ensures |Tokens(Of(s), w)| == AllData(s, w).count
    ensures Agrees(s, w, AllData(s, w).len) <==> LastEnd(Of(s), w) <= w + AllData(s, w).len
  {
    var len := AllData(s, w).len;
    OfSane(s);
    OfAll(s, w);
    AllDataSpan(s, w);
    AgreesCut(s, w, len);
    var a, x := s[..w + len], s[w + len..];
    assert s == a + x;
    OfCut(a, x);
    OfSane(a);
    ReaderAgrees(Of(a), Of(s), w);
    LastEndSpan(Of(s), w);
  }

  predicate AllCountedIn(s: string, p: nat, d: Parsed) {
    d.ret == d.pos - p || (d.token.kind == DECIMAL_NUMERIC && BlankAt(s, End(d)))
  }

  lemma DecimalCounted(s: string, p: nat, d: nat)
    requires p < d <= |s|
    ensures AllCountedIn(s, p, DecimalData(s, p, d))
  {
    assert Run(s, d, Blank) > d ==> BlankAt(s, d);
  }

  lemma BlockCounted(s: string, p: nat)
    requires p <= |s|
    ensures var d := Try(4, s, p); d.token.kind != UNKNOWN ==> AllCountedIn(s, p, d)
  {
  }

  lemma TryCounted(i: nat, s: string, p: nat)
    requires p <= |s| && i <= 5
    ensures var d := Try(i, s, p); d.token.kind != UNKNOWN && (d.ret > 0 || i == 5) ==> AllCountedIn(s, p, d)
  {
    if i == 2 {
      if Decimal(s, p) > p {
        DecimalCounted(s, p, Decimal(s, p));
      }
    } else if i == 4 {
      BlockCounted(s, p);
    } else if i == 0 {
      NondecimalCounted(s, p);
    }
  }

  lemma NondecimalCounted(s: string, p: nat)
    requires p <= |s|
    ensures var d := Try(0, s, p); d.ret > 0 ==> AllCountedIn(s, p, d)
  {
  }

  lemma {:induction false} FirstCounted(i: nat, s: string, p: nat)
    requires p <= |s| && i <= 5 && FirstFrom(i, s, p).token.kind != UNKNOWN
    ensures var d := FirstFrom(i, s, p);
      AllCountedIn(s, p, d)
    decreases 6 - i
  {
    TryCounted(i, s, p);
    if Try(i, s, p).ret == 0 && i < 5 {
      FailedStays(i, s, p);
      FirstCounted(i + 1, s, p);
    }
  }

  /** A recogniser that fails before a later one succeeds leaves the position alone. */
  lemma FailedStays(i: nat, s: string, p: nat)
    requires p <= |s| && i < 5 && Try(i, s, p).ret == 0 && FirstFrom(i + 1, s, Try(i, s, p).pos).token.kind != UNKNOWN
    ensures Try(i, s, p).pos == p
  {
    if i == 4 {
      Cutting.AfterBlock(s, p);
    }
  }

  lemma OfCounted(s: string)
    ensures Counted(Of(s))
  {
    forall p: nat | p <= |s| && Of(s).parse(p).token.kind != UNKNOWN
      ensures var d := Of(s).parse(p);
        d.ret == d.pos - p || (d.token.kind == DECIMAL_NUMERIC && BlankAt(s, End(d)))
    {
      ElementCounted(s, p);
    }
  }

  lemma ElementCounted(s: string, p: nat)
    requires p <= |s| && ParseData(s, p).token.kind != UNKNOWN
    ensures AllCountedIn(s, p, ParseData(s, p))
  {
    ParseDataIs(s, p);
    FirstCounted(0, s, Run(s, p, Blank));
  }

  /** Scanner and reader agree on every unit in which no unsuffixed decimal number is followed by a blank. */
  lemma AgreeWithoutBlanks(s: string, w: nat)
    requires w <= |s| && AllData(s, w).ok && Sane(Of(s))
    requires NoBlankBehindDecimal(Of(s), Tokens(Of(s), w))
    ensures w + AllData(s, w).len <= |s| && All(Of(s), w).ok && Agrees(s, w, AllData(s, w).len)
  {
    ScannerReaderAgree(s, w);
    OfCounted(s);
    AllCounted(Of(s), w);
    LastEndSpan(Of(s), w);
  }

  /** The errors that a parameter read reports. */
  function ReadErrors(r: Read, mandatory: bool): seq<int> {
    match r
    case Missing => if mandatory then [MISSING_PARAMETER] else []
    case BadSeparator => [INVALID_SEPARATOR]
    case BadData(_) => [INVALID_STRING_DATA]
    case Got(_, _) => []
  }

  /** Where the lexer is after a parameter read from `p`, and how many parameters have been read. */
  function PosAfter(r: Read, p: nat): nat {
    if r.Got? || r.BadData? then r.pos else p
  }

  function CountAfter(r: Read, count: nat): nat {
    if r.Got? || r.BadData? then count + 1 else count
  }

  /** The parameter list of a command: the lexer on its program data, what has been read, and the errors reported. */
  class ParameterList {
    const state: LexState
    var inputCount: nat
    var errors: seq<int>

    constructor (data: string)
      ensures fresh(state) && state.buffer == data && state.pos == 0 && inputCount == 0 && errors == []
    {
      state := new LexState(data, 0);
      inputCount, errors := 0, [];
    }

    /** `SCPI_Parameter`. */
    method Parameter(mandatory: bool) returns (ok: bool, token: Token)
      requires state.InRange()
      modifies this, state
      ensures state.InRange()
      ensures var r := ReadParameter(Of(state.buffer), old(state.pos), old(inputCount));
        && ok == r.Got? && (ok ==> token == r.token)
        && state.pos == PosAfter(r, old(state.pos)) && inputCount == CountAfter(r, old(inputCount))
        && errors == old(errors) + ReadErrors(r, mandatory)
      ensures old(state.pos) == |state.buffer| ==>
        !ok && state.pos == old(state.pos) && errors == old(errors) + if mandatory then [-109] else []
      ensures old(state.pos) < |state.buffer| && old(inputCount) > 0 && state.buffer[old(state.pos)] != ',' ==>
        !ok && state.pos == old(state.pos) && errors == old(errors) + [-103]
      ensures ReadParameter(Of(state.buffer), old(state.pos), old(inputCount)).BadData? ==>
        !ok && errors == old(errors) + [-151]
      ensures var tried := old(state.pos) < |state.buffer| &&
          (old(inputCount) == 0 || state.buffer[old(state.pos)] == ',');
        inputCount == old(inputCount) + if tried then 1 else 0
    {
      ok, token := false, Token(UNKNOWN, 0, 0);
      if state.pos >= |state.buffer| {
        if mandatory {
          errors := errors + [MISSING_PARAMETER];
        } else {
          token := token.(kind := PROGRAM_MNEMONIC);
        }
        return;
      }
      if inputCount != 0 {
        var comma := state.Character(',', COMMA);
        if comma.kind != COMMA {
          errors := errors + [INVALID_SEPARATOR];
          return;
        }
      }
      inputCount := inputCount + 1;
      var data, ret := ParseProgramData(state);
      if data.kind == UNKNOWN {
        errors := errors + [INVALID_STRING_DATA];
      } else {
        ok, token := true, data;
      }
    }
  }
}
