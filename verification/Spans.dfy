/** Where the tokens of a unit lie within it. */
module Spans {
  import opened Lexer
  import opened Scanner

  lemma TrySpan(i: nat, s: string, p: nat)
    requires p <= |s| && i <= 5
    ensures Try(i, s, p).ret <= Try(i, s, p).pos - p
  {
  }

  lemma {:induction false} FirstSpan(i: nat, s: string, p: nat)
    requires p <= |s| && i <= 5
    ensures FirstFrom(i, s, p).ret <= FirstFrom(i, s, p).pos - p
    decreases 6 - i
  {
    TrySpan(i, s, p);
    if Try(i, s, p).ret == 0 && i < 5 {
      FirstSpan(i + 1, s, Try(i, s, p).pos);
    }
  }

  /** The length of an element never exceeds the text it takes. */
  lemma ParseDataSpan(s: string, p: nat)
    requires p <= |s|
    ensures ParseData(s, p).ret <= ParseData(s, p).pos - p
  {
    ParseDataIs(s, p);
    FirstSpan(0, s, Run(s, p, Blank));
  }

  lemma AllDataCases(s: string, p: nat)
    requires p <= |s|
    ensures var d := ParseData(s, p);
      if d.token.kind == UNKNOWN then AllData(s, p) == Scanned(d.pos, false, 0, -1)
      else if Sees(s, d.pos, ',') then AllData(s, p) == Behind(d.ret + 1, 1, AllData(s, d.pos + 1))
      else AllData(s, p) == Scanned(d.pos, true, d.ret, 1)
  {
  }

  /** The program data of a unit never exceed the text they take. */
  lemma {:induction false} AllDataSpan(s: string, p: nat)
    requires p <= |s|
    ensures AllData(s, p).len <= AllData(s, p).pos - p
    decreases |s| - p
  {
    ParseDataSpan(s, p);
    AllDataCases(s, p);
    var d := ParseData(s, p);
    if d.token.kind != UNKNOWN && Sees(s, d.pos, ',') {
      AllDataSpan(s, d.pos + 1);
    }
  }

  lemma HeaderSpan(s: string, p: nat)
    requires p <= |s|
    ensures var l := LexProgramHeader(s, p); l.token.ptr == p && p + l.token.len == l.pos && l.token.kind != INVALID
  {
  }

  lemma BodySpans(s: string)
    ensures var (h, d, n, p) := UnitBody(s); h.ptr + h.len <= d.ptr && d.ptr + d.len <= p && h.kind != INVALID
  {
    var q := Run(s, 0, Blank);
    HeaderSpan(s, q);
    AllDataSpan(s, Run(s, LexProgramHeader(s, q).pos, Blank));
  }

  /** Header and data lie within the unit, in this order. */
  lemma UnitSpans(s: string)
    ensures var u := ScanUnit(s);
      && u.header.ptr + u.header.len <= u.consumed
      && u.data.ptr + u.data.len <= u.consumed
      && (u.header.kind != INVALID ==> u.header.ptr + u.header.len <= u.data.ptr)
  {
    ScanUnitIs(s);
    BodySpans(s);
  }

  /** A unit that is not the last one has a terminator behind its header. */
  lemma HeaderTerminated(s: string)
    ensures var u := ScanUnit(s);
      u.header.kind != INVALID && u.consumed < |s| ==> u.header.ptr + u.header.len < u.consumed
  {
    ScanUnitIs(s);
    BodySpans(s);
  }
}
