/** Program data and program message units: the `scpiParser_*` functions of `parser.c`. */
module Scanner {
  import opened Lexer

  /** One program data element: where the lexer is left, the token, and the length the function returns. */
  datatype Parsed = Parsed(pos: nat, token: Token, ret: nat)

  /** Where the token ends. */
  function End(d: Parsed): nat {
    d.token.ptr + d.token.len
  }

  /** A decimal number and the suffix behind it. Blanks are taken even when no suffix follows. */
  function DecimalData(s: string, p: nat, d: nat): (r: Parsed)
    requires p < d <= |s|
    ensures d <= r.pos <= |s|
  {
    var w := Run(s, d, Blank);
    var q := Suffix(s, w);
    if q > w then Parsed(q, Token(DECIMAL_NUMERIC_WITH_SUFFIX, p, q - p), q - p)
    else Parsed(w, Token(DECIMAL_NUMERIC, p, d - p), d - p)
  }

  /** The recognisers in the order `scpiParser_parseProgramData` tries them; a length of 0 means that one failed. */
  function Try(i: nat, s: string, p: nat): (r: Parsed)
    requires p <= |s|
    ensures p <= r.pos <= |s|
  {
    if i == 0 then
      var l := LexNondecimalNumericData(s, p);
      Parsed(l.pos, l.token, if l.token.len > 0 then l.token.len + 2 else 0)
    else if i == 1 then Plain(LexCharacterProgramData(s, p))
    else if i == 2 then
      var d := Decimal(s, p);
      if d > p then DecimalData(s, p, d) else Plain(Nothing(p))
    else if i == 3 then Plain(LexStringProgramData(s, p))
    else if i == 4 then
      var l := LexArbitraryBlockProgramData(s, p);
      Parsed(l.pos, l.token, l.token.len + (l.token.ptr - p))
    else Plain(LexProgramExpression(s, p))
  }

  function Plain(l: Lexed): Parsed {
    Parsed(l.pos, l.token, l.token.len)
  }

  /** What the recognisers from number `i` on make of the text. */
  function FirstFrom(i: nat, s: string, p: nat): (r: Parsed)
    requires p <= |s| && i <= 5
    ensures p <= r.pos <= |s|
    decreases 6 - i
  {
    var r := Try(i, s, p);
    if r.ret > 0 || i == 5 then r else FirstFrom(i + 1, s, r.pos)
  }

  /** What `scpiParser_parseProgramData` makes of the text at a position. */
  function DataAt(s: string, p: nat): (r: Parsed)
    requires p <= |s|
    ensures p <= r.pos <= |s|
  {
    var w := Run(s, p, Blank);
    var d := FirstFrom(0, s, w);
    var e := Run(s, d.pos, Blank);
    Parsed(e, d.token, d.ret + (w - p) + (e - d.pos))
  }

  /** Always true: proofs that need the definition of a scan mention the place they need it for. */
  predicate Asked(s: string, p: nat) {
    true
  }

  ghost predicate IsData(s: string, p: nat, r: Parsed)
    requires p <= |s|
  {
    forall q: nat {:trigger Asked(s, q)} :: Asked(s, q) && q == p ==> r == DataAt(s, p)
  }

  /** `scpiParser_parseProgramData`. */
  ghost function ParseData(s: string, p: nat): (r: Parsed)
    requires p <= |s|
    ensures p <= r.pos <= |s|
  {
    assert IsData(s, p, DataAt(s, p));
    var r :| IsData(s, p, r);
    assert Asked(s, p);
    r
  }

  lemma ParseDataIs(s: string, p: nat)
    requires p <= |s|
    ensures ParseData(s, p) == DataAt(s, p)
  {
    assert Asked(s, p);
  }

  /** An element from its parts: leading blanks, the recogniser's result, trailing blanks. */
  lemma ParseDataBy(s: string, p: nat, w: nat, d: Parsed, e: nat)
    requires p <= |s| && w == Run(s, p, Blank) && d == FirstFrom(0, s, w) && e == Run(s, d.pos, Blank)
    ensures ParseData(s, p) == Parsed(e, d.token, d.ret + (w - p) + (e - d.pos))
  {
    ParseDataIs(s, p);
  }

  /** An element without blanks in front of it, and perhaps none behind it. */
  lemma ParseDataIsFirst(s: string, p: nat, d: Parsed)
    requires p <= |s| && Run(s, p, Blank) == p && FirstFrom(0, s, p) == d
    ensures ParseData(s, p).token == d.token
    ensures Run(s, d.pos, Blank) == d.pos ==> ParseData(s, p) == d
  {
    ParseDataBy(s, p, p, d, Run(s, d.pos, Blank));
  }

  /** All program data of a unit: where it ends, whether every element was recognised, the length, and the count. */
  datatype Scanned = Scanned(pos: nat, ok: bool, len: nat, count: int)

  /** What `scpiParser_parseAllProgramData` makes of the text from one element on. */
  ghost function AllData(s: string, p: nat): (r: Scanned)
    requires p <= |s|
    ensures p <= r.pos <= |s|
    decreases |s| - p
  {
    var d := ParseData(s, p);
    if d.token.kind == UNKNOWN then Scanned(d.pos, false, 0, -1)
    else if Sees(s, d.pos, ',') then Behind(d.ret + 1, 1, AllData(s, d.pos + 1))
    else Scanned(d.pos, true, d.ret, 1)
  }

  /** The scan of a text before which `count` elements of `len` bytes have been passed. */
  function Behind(len: nat, count: nat, r: Scanned): Scanned {
    if r.ok then Scanned(r.pos, true, len + r.len, count + r.count) else r
  }

  datatype Termination = NONE | NEWLINE | SEMI

  /** `scpi_parser_state_t` after one unit, and the length of the unit. */
  datatype Unit = Unit(header: Token, data: Token, params: int, termination: Termination, consumed: nat)

  /** Header and data of the unit at the start of the buffer, and where its terminator is looked for. */
  ghost function UnitBody(s: string): (r: (Token, Token, int, nat))
    ensures r.3 <= |s|
  {
    var h := LexProgramHeader(s, Run(s, 0, Blank));
    var w := Run(s, h.pos, Blank);
    if w > h.pos then
      var d := AllData(s, w);
      (h.token, Token(if d.ok then ALL_PROGRAM_DATA else UNKNOWN, w, d.len), d.count, d.pos)
    else (h.token, Token(UNKNOWN, w, 0), 0, w)
  }

  /** What `scpiParser_detectProgramMessageUnit` makes of a buffer. */
  ghost function UnitOf(s: string): (u: Unit)
    ensures u.consumed <= |s|
  {
    var (header, data, params, p) := UnitBody(s);
    var nl := LexNewLine(s, p).pos;
    if nl > p then Unit(header, data, params, NEWLINE, nl)
    else if Sees(s, p, ';') then Unit(header, data, params, SEMI, p + 1)
    else if p == |s| then Unit(header, data, params, NONE, p)
    else Unit(Token(INVALID, header.ptr, 1), Token(UNKNOWN, 0, 0), params, NONE, p + 1)
  }

  ghost predicate IsUnit(s: string, u: Unit) {
    forall q: nat {:trigger Asked(s, q)} :: Asked(s, q) ==> u == UnitOf(s)
  }

  /** `scpiParser_detectProgramMessageUnit`. */
  ghost function ScanUnit(s: string): (u: Unit)
    ensures u.consumed <= |s|
  {
    assert IsUnit(s, UnitOf(s));
    var u :| IsUnit(s, u);
    assert Asked(s, 0);
    u
  }

  lemma ScanUnitIs(s: string)
    ensures ScanUnit(s) == UnitOf(s)
  {
    assert Asked(s, 0);
  }

  /** `scpiParser_parseProgramData`. */
  method ParseProgramData(state: LexState) returns (token: Token, ret: nat)
    requires state.InRange()
    modifies state
    ensures state.InRange() && Parsed(state.pos, token, ret) == ParseData(state.buffer, old(state.pos))
  {
    var blanks := state.WhiteSpace();
    var realLen := blanks.len;
    token, ret := ParseToken(state);
    blanks := state.WhiteSpace();
    realLen := realLen + blanks.len;
    ret := ret + realLen;
    ParseDataIs(state.buffer, old(state.pos));
  }

  /** The recognisers between the blanks. */
  method ParseToken(state: LexState) returns (token: Token, ret: nat)
    requires state.InRange()
    modifies state
    ensures state.InRange() && Parsed(state.pos, token, ret) == FirstFrom(0, state.buffer, old(state.pos))
  {
    ghost var goal := FirstFrom(0, state.buffer, state.pos);
    token := state.NondecimalNumericData();
    ret := if token.len > 0 then token.len + 2 else 0;
    if ret == 0 {
      assert goal == FirstFrom(1, state.buffer, state.pos);
      token := state.CharacterProgramData();
      ret := token.len;
    }
    if ret == 0 {
      assert goal == FirstFrom(2, state.buffer, state.pos);
      token, ret := ParseDecimal(state);
    }
    if ret == 0 {
      assert goal == FirstFrom(3, state.buffer, state.pos);
      token := state.StringProgramData();
      ret := token.len;
    }
    if ret == 0 {
      assert goal == FirstFrom(4, state.buffer, state.pos);
      var start := state.pos;
      token := state.ArbitraryBlockProgramData();
      ret := token.len + (token.ptr - start);
    }
    if ret == 0 {
      assert goal == FirstFrom(5, state.buffer, state.pos);
      token := state.ProgramExpression();
      ret := token.len;
    }
  }

  /** A decimal number with the suffix that may follow it. */
  method ParseDecimal(state: LexState) returns (token: Token, ret: nat)
    requires state.InRange()
    modifies state
    ensures state.InRange()
    ensures var p, d := old(state.pos), Decimal(state.buffer, old(state.pos));
      Parsed(state.pos, token, ret) == if d > p then DecimalData(state.buffer, p, d)
        else Parsed(p, Token(UNKNOWN, p, 0), 0)
  {
    token := state.DecimalNumericProgramData();
    ret := token.len;
    if ret != 0 {
      var blanks := state.WhiteSpace();
      var suffix := state.SuffixProgramData();
      if suffix.len > 0 {
        token := Token(DECIMAL_NUMERIC_WITH_SUFFIX, token.ptr, token.len + blanks.len + suffix.len);
        ret := token.len;
      }
    }
  }

  /** `scpiParser_parseAllProgramData`. */
  method ParseAllProgramData(state: LexState) returns (token: Token, numberOfParameters: int)
    requires state.InRange()
    modifies state
    ensures state.InRange()
    ensures var d := AllData(state.buffer, old(state.pos));
      && state.pos == d.pos && numberOfParameters == d.count
      && token == Token(if d.ok then ALL_PROGRAM_DATA else UNKNOWN, old(state.pos), d.len)
  {
    var ptr := state.pos;
    var len: int, paramCount: nat, more := -1, 0, true;
    ghost var goal := AllData(state.buffer, ptr);
    while more
      invariant state.InRange()
      invariant more ==> len >= -1 && goal == Behind(len + 1, paramCount, AllData(state.buffer, state.pos))
      invariant !more ==> len >= 0 && goal == Scanned(state.pos, true, len, paramCount)
      decreases more, |state.buffer| - state.pos
    {
      var ok, ret;
      ok, ret, more := ParseElement(state);
      if !ok {
        return Token(UNKNOWN, ptr, 0), -1;
      }
      len := len + 1 + ret;
      paramCount := paramCount + 1;
    }
    token := Token(ALL_PROGRAM_DATA, ptr, len);
    numberOfParameters := paramCount;
  }

  /** The loop body of `scpiParser_parseAllProgramData`: one element and the comma behind it. */
  method ParseElement(state: LexState) returns (ok: bool, ret: nat, more: bool)
    requires state.InRange()
    modifies state
    ensures state.InRange() && old(state.pos) <= state.pos && (more ==> ok && old(state.pos) < state.pos)
    ensures !ok ==> AllData(state.buffer, old(state.pos)) == Scanned(state.pos, false, 0, -1)
    ensures ok && more ==> AllData(state.buffer, old(state.pos)) == Behind(ret + 1, 1, AllData(state.buffer, state.pos))
    ensures ok && !more ==> AllData(state.buffer, old(state.pos)) == Scanned(state.pos, true, ret, 1)
  {
    var tmp;
    tmp, ret := ParseProgramData(state);
    ok, more := tmp.kind != UNKNOWN, false;
    if ok {
      var comma := state.Character(',', COMMA);
      more := comma.len > 0;
    }
  }

  /** `scpiParser_detectProgramMessageUnit`. */
  method DetectProgramMessageUnit(buffer: string) returns (u: Unit)
    ensures u == ScanUnit(buffer)
  {
    var state := new LexState(buffer, 0);
    var header, data, params := DetectBody(state);
    var tmp := state.NewLine();
    var result := tmp.len;
    if result == 0 {
      tmp := state.Character(';', SEMICOLON);
      result := tmp.len;
    }
    if !state.IsEos() && result == 0 {
      state.pos := state.pos + 1;
      header := Token(INVALID, header.ptr, 1);
      data := Token(UNKNOWN, 0, 0);
    }
    ScanUnitIs(buffer);
    var termination := if tmp.kind == SEMICOLON then SEMI else if tmp.kind == NL then NEWLINE else NONE;
    u := Unit(header, data, params, termination, state.pos);
  }

  /** Header and program data of a unit. */
  method DetectBody(state: LexState) returns (header: Token, data: Token, params: int)
    requires state.pos == 0
    modifies state
    ensures state.InRange() && (header, data, params, state.pos) == UnitBody(state.buffer)
  {
    var blanks := state.WhiteSpace();
    header := state.ProgramHeader();
    blanks := state.WhiteSpace();
    params := 0;
    if blanks.len > 0 {
      data, params := ParseAllProgramData(state);
    } else {
      data := Token(UNKNOWN, state.pos, 0);
    }
  }
}
