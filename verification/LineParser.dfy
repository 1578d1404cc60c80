/** `SCPI_Parse`: the units of one line, with headers composed in place. */
module LineParser {
  import opened Base
  import opened Lexer
  import opened Scanner
  import opened Extension
  import opened Patterns
  import opened PatternLanguage
  import opened Spans

  /** What the parser asks of the rest of the library. */
  datatype Event =
    | Execute(command: nat, header: string, data: string)
    | InvalidCharacter
    | UndefinedHeader(text: string)
    | InputBufferOverrun

  /** The first command, from number `i` on, whose pattern matches the header. */
  function Find(cmds: seq<Pattern>, header: string, i: nat): (r: Option<nat>)
    requires header != "" && i <= |cmds|
    decreases |cmds| - i
  {
    if i == |cmds| then None
    else if Match(cmds[i], header) then Some(i)
    else Find(cmds, header, i + 1)
  }

  /** The lookup gives the first command in whose pattern the matcher sees the header. */
  lemma {:induction false} FindsFirst(cmds: seq<Pattern>, header: string, i: nat)
    requires header != "" && i <= |cmds|
    ensures var r := Find(cmds, header, i);
      && (r.Some? ==> i <= r.value < |cmds| && Match(cmds[r.value], header))
      && forall j | i <= j < (if r.Some? then r.value else |cmds|) :: !Match(cmds[j], header)
    decreases |cmds| - i
  {
    if i < |cmds| && !Match(cmds[i], header) {
      FindsFirst(cmds, header, i + 1);
    }
  }

  /** How a header is looked up in the command table. */
  type Lookup = string -> Option<nat>

  function Table(cmds: seq<Pattern>): Lookup {
    header => if header == "" then None else Find(cmds, header, 0)
  }

  /** The length of the first `n` characters up to and with their last colon. */
  function PathLength(header: string, n: nat): (i: nat)
    requires n <= |header|
    ensures i <= n
  {
    if n == 0 || header[n - 1] == ':' then n else PathLength(header, n - 1)
  }

  /** How many bytes of the previous header the current one takes over. */
  function Inherited(prev: string, cur: string): (i: nat)
    requires cur != ""
    ensures i <= |prev|
  {
    if prev == "" || cur[0] == '*' || cur[0] == ':' || prev[0] == '*' then 0 else PathLength(prev, |prev|)
  }

  /** The header-path rule: a header that names no root continues in the path of the one before. */
  function Resolve(prev: string, cur: string): (h: string)
    requires cur != ""
    ensures h != ""
  {
    prev[..Inherited(prev, cur)] + cur
  }

  lemma {:induction false} PathEnds(path: string, word: string, n: nat)
    requires |path| <= n <= |path + word| && ':' !in word && (path != "" ==> path[|path| - 1] == ':')
    ensures PathLength(path + word, n) == |path|
  {
    if n > |path| {
      assert (path + word)[n - 1] == word[n - 1 - |path|];
      PathEnds(path, word, n - 1);
    }
  }

  /**
   The rule on the texts: a header continues in the path of the one before, which reaches to its last colon, unless
   either is a common header or the new one begins with a colon.
   */
  lemma ResolveExact(path: string, word: string, cur: string)
    requires cur != "" && ':' !in word && (path != "" ==> path[|path| - 1] == ':')
    ensures Resolve(path + word, cur) ==
      if cur[0] == '*' || cur[0] == ':' || (path + word != "" && (path + word)[0] == '*') then cur else path + cur
  {
    var prev := path + word;
    if prev != "" {
      PathEnds(path, word, |prev|);
      assert prev[..|path|] == path;
    }
    assert prev[..0] + cur == cur;
  }

  function TrimNewlines(s: string): string {
    if s != "" && IsNL(s[|s| - 1]) then TrimNewlines(s[..|s| - 1]) else s
  }

  /** Trimming takes off all carriage returns and line feeds at the end, and nothing else. */
  lemma {:induction false} TrimExact(s: string)
    ensures var t := TrimNewlines(s);
      && |t| <= |s| && t == s[..|t|]
      && (forall i | |t| <= i < |s| :: s[i] == '\r' || s[i] == '\n')
      && (t != "" ==> t[|t| - 1] != '\r' && t[|t| - 1] != '\n')
  {
    if s != "" && IsNL(s[|s| - 1]) {
      TrimExact(s[..|s| - 1]);
    }
  }

  /** `memmove` of `n` bytes within one buffer. */
  function Moved(mem: string, dst: nat, src: nat, n: nat): (r: string)
    requires dst + n <= |mem| && src + n <= |mem|
    ensures |r| == |mem|
  {
    mem[..dst] + mem[src..src + n] + mem[dst + n..]
  }

  /** The bytes of a line that have been parsed, and where the previous header is in them. */
  datatype Cursor = Cursor(done: string, prev: nat, prevLen: nat) {
    predicate Inside() {
      prev + prevLen <= |done|
    }

    function Prev(): string
      requires Inside()
    {
      done[prev..prev + prevLen]
    }
  }

  function Text(t: string, k: Token): string
    requires k.ptr + k.len <= |t|
  {
    t[k.ptr..k.ptr + k.len]
  }

  /** A unit whose text is `t`, with its tokens in it. */
  predicate Spanned(u: Unit, t: string) {
    && u.header.ptr + u.header.len <= |t| && u.data.ptr + u.data.len <= |t|
    && (u.header.kind != INVALID ==> u.header.ptr + u.header.len <= u.data.ptr)
  }

  predicate Headed(u: Unit) {
    u.header.kind != INVALID && u.header.len > 0
  }

  /** `composeCompoundCommand` in place: the header grows to the left over bytes that have been parsed. */
  function Compose(c: Cursor, t: string, k: Token): (d: Cursor)
    requires c.Inside() && k.len > 0 && k.ptr + k.len <= |t|
    ensures d.Inside() && |d.done| == |c.done| + |t| && d.prevLen > 0
  {
    var h := |c.done| + k.ptr;
    var i := Inherited(c.Prev(), Text(t, k));
    Cursor(Moved(c.done + t, h - i, c.prev, i), h - i, k.len + i)
  }

  /** Composition gives the header of the header-path rule. */
  lemma ComposeResolves(c: Cursor, t: string, k: Token)
    requires c.Inside() && k.len > 0 && k.ptr + k.len <= |t|
    ensures Compose(c, t, k).Prev() == Resolve(c.Prev(), Text(t, k))
  {
    var h, i := |c.done| + k.ptr, Inherited(c.Prev(), Text(t, k));
    MovedHeader(c.done, t, c.prev, c.prevLen, i, k.ptr, k.len);
  }

  /** Moving the first `i` bytes of a header in front of another puts the two together. */
  lemma MovedHeader(done: string, t: string, prev: nat, prevLen: nat, i: nat, ptr: nat, len: nat)
    requires prev + prevLen <= |done| && i <= prevLen && ptr + len <= |t|
    ensures var h := |done| + ptr;
      Moved(done + t, h - i, prev, i)[h - i..h + len] == done[prev..prev + prevLen][..i] + t[ptr..ptr + len]
  {
    var mem, h := done + t, |done| + ptr;
    var m := Moved(mem, h - i, prev, i);
    MovedPart(mem, h - i, prev, i, h + len);
    FrontSlices(done, t, prev, prevLen, i, ptr, len);
  }

  lemma MovedPart(mem: string, dst: nat, src: nat, n: nat, end: nat)
    requires src + n <= |mem| && dst + n <= end <= |mem|
    ensures Moved(mem, dst, src, n)[dst..end] == mem[src..src + n] + mem[dst + n..end]
  {
  }

  lemma FrontSlices(done: string, t: string, prev: nat, prevLen: nat, i: nat, ptr: nat, len: nat)
    requires prev + prevLen <= |done| && i <= prevLen && ptr + len <= |t|
    ensures (done + t)[prev..prev + i] == done[prev..prev + prevLen][..i]
    ensures (done + t)[|done| + ptr..|done| + ptr + len] == t[ptr..ptr + len]
  {
  }

  /** Composition writes only parsed bytes of the line, between the start of the previous header and the current one. */
  lemma ComposeKeeps(c: Cursor, t: string, k: Token)
    requires c.Inside() && k.len > 0 && k.ptr + k.len <= |t|
    ensures var d, mem, h := Compose(c, t, k), c.done + t, |c.done| + k.ptr;
      && d.prev <= h && (c.prevLen > 0 ==> c.prev <= d.prev)
      && forall j | 0 <= j < |mem| && !(d.prev <= j < h) :: d.done[j] == mem[j]
  {
  }

  /** A header is executed with the data of its unit, or reported with the text of its unit. */
  function Outcome(find: Lookup, header: string, data: string, text: string): seq<Event> {
    var found := find(header);
    if found.Some? then [Execute(found.value, header, data)] else [UndefinedHeader(TrimNewlines(text))]
  }

  /** A header that is found becomes the previous one. */
  function Conclude(find: Lookup, c: Cursor, d: Cursor, n: nat, data: string): (r: (Cursor, seq<Event>))
    requires d.Inside() && n <= |d.done|
  {
    (if find(d.Prev()).Some? then d else c.(done := d.done), Outcome(find, d.Prev(), data, d.done[n..]))
  }

  /** What `SCPI_Parse` does with the unit `u` that has the text `t`. */
  function Handle(find: Lookup, c: Cursor, t: string, u: Unit): (r: (Cursor, seq<Event>))
    requires c.Inside() && Spanned(u, t)
    ensures r.0.Inside() && |r.0.done| == |c.done| + |t|
  {
    if u.header.kind == INVALID then (c.(done := c.done + t), [InvalidCharacter])
    else if u.header.len == 0 then (c.(done := c.done + t), [])
    else Conclude(find, c, Compose(c, t, u.header), |c.done|, Text(t, u.data))
  }

  /** The text of the first unit holds its tokens. */
  lemma FirstSpanned(s: string)
    ensures Spanned(ScanUnit(s), s[..ScanUnit(s).consumed])
  {
    UnitSpans(s);
  }

  /** The events of the rest `s` of a line. */
  ghost function ParseFrom(find: Lookup, c: Cursor, s: string): seq<Event>
    requires c.Inside()
    decreases |s|
  {
    FirstSpanned(s);
    var u := ScanUnit(s);
    var (d, es) := Handle(find, c, s[..u.consumed], u);
    if 0 < u.consumed < |s| then es + ParseFrom(find, d, s[u.consumed..]) else es
  }

  const START := Cursor("", 0, 0)

  /** `SCPI_Parse` of a line. */
  ghost function ParseLine(find: Lookup, line: string): seq<Event> {
    ParseFrom(find, START, line)
  }

  function PureConclude(find: Lookup, prev: string, header: string, data: string, text: string): (string, seq<Event>) {
    (if find(header).Some? then header else prev, Outcome(find, header, data, text))
  }

  function PureHandle(find: Lookup, prev: string, t: string, u: Unit): (string, seq<Event>)
    requires Spanned(u, t)
  {
    if u.header.kind == INVALID then (prev, [InvalidCharacter])
    else if u.header.len == 0 then (prev, [])
    else PureConclude(find, prev, Resolve(prev, Text(t, u.header)), Text(t, u.data), t)
  }

  /** The same parser on an untouched copy of the line, with the previous header kept aside. */
  ghost function PureParse(find: Lookup, prev: string, s: string): seq<Event>
    decreases |s|
  {
    FirstSpanned(s);
    var u := ScanUnit(s);
    var (header, es) := PureHandle(find, prev, s[..u.consumed], u);
    if 0 < u.consumed < |s| then es + PureParse(find, header, s[u.consumed..]) else es
  }
}
