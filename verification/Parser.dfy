/** `SCPI_Parse` and `SCPI_Input` as they work in place on the input buffer. */
module Parser {
  import opened Base
  import opened Lexer
  import opened Scanner
  import opened Messages
  import opened Patterns
  import opened LineParser
  import opened Joining
  import opened Chunks
  import CommandMatch

  lemma NothingMoved(mem: string, dst: nat, src: nat)
    requires dst <= |mem| && src <= |mem|
    ensures Moved(mem, dst, src, 0) == mem
  {
  }

  /** The current header has taken over the path of the previous one: where it is now, and the memory after that. */
  ghost predicate InFront(mem: string, prev: nat, prevLen: nat, ptr: nat, len: nat, now: string, newPtr: nat,
        newLen: nat)
    requires prev + prevLen <= ptr && 0 < len && ptr + len <= |mem|
  {
    forall q: nat {:trigger Asked(mem, q)} :: Asked(mem, q) ==>
      var i := Inherited(mem[prev..prev + prevLen], mem[ptr..ptr + len]);
      newPtr == ptr - i && newLen == len + i && now == Moved(mem, ptr - i, prev, i)
  }

  lemma InFrontIs(mem: string, prev: nat, prevLen: nat, ptr: nat, len: nat, now: string, newPtr: nat, newLen: nat)
    requires prev + prevLen <= ptr && 0 < len && ptr + len <= |mem|
    requires InFront(mem, prev, prevLen, ptr, len, now, newPtr, newLen)
    ensures var i := Inherited(mem[prev..prev + prevLen], mem[ptr..ptr + len]);
      newPtr == ptr - i && newLen == len + i && now == Moved(mem, ptr - i, prev, i)
  {
    assert Asked(mem, 0);
  }

  /** Writing one byte range of a prefix is writing it in the whole. */
  lemma MovedPrefix(mem: string, n: nat, dst: nat, src: nat, len: nat)
    requires dst + len <= n <= |mem| && src + len <= n
    ensures Moved(mem, dst, src, len)[..n] == Moved(mem[..n], dst, src, len)
    ensures Moved(mem, dst, src, len)[n..] == mem[n..]
  {
  }

  class Parser {
    const patterns: seq<string>
    ghost const cmds: seq<Pattern>
    const buffer: array<char>
    var position: nat
    var log: seq<Event>

    ghost predicate HasTable() {
      |patterns| == |cmds| && forall i | 0 <= i < |cmds| :: WellFormed(cmds[i]) && patterns[i] == Render(cmds[i])
    }

    ghost predicate Valid()
      reads this
    {
      HasTable() && position < buffer.Length
    }

    /** `SCPI_Init`, for a buffer that has a byte for the terminator. */
    constructor (patterns: seq<string>, ghost cmds: seq<Pattern>, buffer: array<char>)
      requires |patterns| == |cmds| && buffer.Length > 0
      requires forall i | 0 <= i < |cmds| :: WellFormed(cmds[i]) && patterns[i] == Render(cmds[i])
      ensures Valid() && position == 0 && log == []
      ensures this.cmds == cmds && this.buffer == buffer
    {
      this.patterns, this.cmds, this.buffer := patterns, cmds, buffer;
      this.position, this.log := 0, [];
    }

    /** `findCommandHeader`. */
    method FindCommandHeader(header: string) returns (found: Option<nat>)
      requires HasTable() && header != ""
      ensures found == Table(cmds)(header)
    {
      var i := 0;
      while i < |patterns|
        invariant i <= |patterns|
        invariant Table(cmds)(header) == Find(cmds, header, i)
      {
        var matched := CommandMatch.MatchCommand(patterns[i], header, cmds[i]);
        if matched {
          return Some(i);
        }
        i := i + 1;
      }
      return None;
    }

    /** The loop that looks for the last colon of the previous header. */
    method LastColon(prev: nat, prevLen: nat) returns (i: nat)
      requires prev + prevLen <= buffer.Length
      ensures i == PathLength(buffer[prev..prev + prevLen], prevLen)
    {
      i := prevLen;
      ghost var p := buffer[prev..prev + prevLen];
      while i > 0 && buffer[prev + i - 1] != ':'
        invariant i <= prevLen && PathLength(p, i) == PathLength(p, |p|)
      {
        i := i - 1;
      }
    }

    /** `composeCompoundCommand`. */
    method ComposeCompoundCommand(prev: nat, prevLen: nat, ptr: nat, len: nat, ghost mem: string)
        returns (newPtr: nat, newLen: nat)
      requires prev + prevLen <= ptr && 0 < len && ptr + len <= buffer.Length && mem == buffer[..]
      modifies buffer
      ensures InFront(mem, prev, prevLen, ptr, len, buffer[..], newPtr, newLen)
    {
      var i := TakenOver(prev, prevLen, ptr, len, mem);
      newPtr, newLen := ptr - i, len + i;
      if i > 0 {
        MoveBytes(newPtr, prev, i);
      } else {
        NothingMoved(mem, ptr, prev);
      }
    }

    /** How many bytes of the previous header are put in front of the current one. */
    method TakenOver(prev: nat, prevLen: nat, ptr: nat, len: nat, ghost mem: string) returns (i: nat)
      requires prev + prevLen <= ptr && 0 < len && ptr + len <= buffer.Length && mem == buffer[..]
      ensures i == Inherited(mem[prev..prev + prevLen], mem[ptr..ptr + len])
    {
      ghost var p, c := mem[prev..prev + prevLen], mem[ptr..ptr + len];
      assert c[0] == buffer[ptr] && (prevLen > 0 ==> p[0] == buffer[prev]);
      if prevLen == 0 || buffer[ptr] == '*' || buffer[ptr] == ':' || buffer[prev] == '*' {
        return 0;
      }
      assert buffer[prev..prev + prevLen] == p;
      i := LastColon(prev, prevLen);
    }

    /** `memmove`. */
    method MoveBytes(dst: nat, src: nat, n: nat)
      requires dst + n <= buffer.Length && src + n <= buffer.Length
      modifies buffer
      ensures buffer[..] == Moved(old(buffer[..]), dst, src, n)
    {
      forall j | 0 <= j < n {
        buffer[dst + j] := buffer[src + j];
      }
      assert buffer[..] == Moved(old(buffer[..]), dst, src, n);
    }

    /** The loop that cuts newline characters off a reported header. */
    method Trimmed(from: nat, r: nat) returns (text: string)
      requires from + r <= buffer.Length
      ensures text == TrimNewlines(buffer[from..from + r])
    {
      var n: nat := r;
      while n > 0 && (buffer[from + n - 1] == '\r' || buffer[from + n - 1] == '\n')
        invariant n <= r && from + r <= buffer.Length
        invariant TrimNewlines(buffer[from..from + n]) == TrimNewlines(buffer[from..from + r])
      {
        assert buffer[from..from + n][..n - 1] == buffer[from..from + n - 1];
        n := n - 1;
      }
      text := buffer[from..from + n];
    }

    /** The buffer holds the composed header of the unit that ends at `n`, and behind that the same bytes as before. */
    ghost predicate AsComposed(c: Cursor, t: string, u: Unit, n: nat, ptr: nat, len: nat, tail: string)
      requires c.Inside() && Spanned(u, t) && Headed(u)
      reads buffer
    {
      && n <= buffer.Length && ptr + len <= n && len > 0
      && Compose(c, t, u.header) == Cursor(buffer[..n], ptr, len) && buffer[n..] == tail
    }

    /** Composition of the header of the unit that starts at `k`. */
    method ComposeUnit(k: nat, u: Unit, prev: nat, prevLen: nat, ghost c: Cursor, ghost t: string, ghost tail: string)
        returns (ptr: nat, len: nat)
      requires k + |t| <= buffer.Length && c == Cursor(buffer[..k], prev, prevLen) && t == buffer[k..k + |t|]
      requires c.Inside() && Spanned(u, t) && Headed(u) && tail == buffer[k + |t|..]
      modifies buffer
      ensures AsComposed(c, t, u, k + |t|, ptr, len, tail)
    {
      ghost var n, mem := k + |t|, buffer[..];
      SameBytes(mem, k, n);
      var h := k + u.header.ptr;
      ptr, len := ComposeCompoundCommand(prev, prevLen, h, u.header.len, mem);
      ComposedHeader(c, t, mem, k, n, u, prev, prevLen, h, ptr, len, tail);
    }

    lemma SameBytes(mem: string, k: nat, n: nat)
      requires k <= n <= buffer.Length && mem == buffer[..]
      ensures mem[..k] == buffer[..k] && mem[k..n] == buffer[k..n] && mem[n..] == buffer[n..]
    {
    }

    lemma ComposedHeader(c: Cursor, t: string, mem: string, k: nat, n: nat, u: Unit, prev: nat, prevLen: nat, h: nat,
                         ptr: nat, len: nat, tail: string)
      requires k <= n <= |mem| == buffer.Length && c == Cursor(mem[..k], prev, prevLen) && t == mem[k..n] &&
        tail == mem[n..]
      requires c.Inside() && Headed(u) && Spanned(u, t) && h == k + u.header.ptr
      requires InFront(mem, prev, prevLen, h, u.header.len, buffer[..], ptr, len)
      ensures AsComposed(c, t, u, n, ptr, len, tail)
    {
      var now := buffer[..];
      InFrontIs(mem, prev, prevLen, h, u.header.len, now, ptr, len);
      ComposedFor(c, t, mem, k, n, u, now, ptr, len);
      assert buffer[..n] == now[..n] && buffer[n..] == now[n..];
    }

    method DataText(k: nat, u: Unit, ghost t: string) returns (data: string)
      requires k + |t| <= buffer.Length && t == buffer[k..k + |t|] && Spanned(u, t)
      ensures data == Text(t, u.data)
    {
      data := buffer[k + u.data.ptr..k + u.data.ptr + u.data.len];
      ghost var mem := buffer[..];
      assert t == mem[k..k + |t|];
      SliceOfSlice(mem, k, k + |t|, u.data);
    }

    /** A unit that has a header: compose it, find it, and execute or report it. */
    method HandleHeader(k: nat, u: Unit, prev: nat, prevLen: nat, ghost c: Cursor, ghost t: string)
        returns (newPrev: nat, newPrevLen: nat)
      requires HasTable() && |t| == u.consumed && k + |t| <= buffer.Length
      requires c == Cursor(buffer[..k], prev, prevLen) && t == buffer[k..k + |t|]
      requires c.Inside() && Spanned(u, t) && Headed(u)
      modifies this`log, buffer
      ensures buffer[k + |t|..] == old(buffer[k + |t|..])
      ensures Cursor(buffer[..k + |t|], newPrev, newPrevLen) == Handle(Table(cmds), c, t, u).0
      ensures log == old(log) + Handle(Table(cmds), c, t, u).1
    {
      var data := DataText(k, u, t);
      var ptr, len := ComposeUnit(k, u, prev, prevLen, c, t, buffer[k + |t|..]);
      newPrev, newPrevLen := Conclude(k, u.consumed, prev, prevLen, ptr, len, data, c, Compose(c, t, u.header));
    }

    /** Look the composed header up: it becomes the previous one, or its unit is reported. */
    method Conclude(k: nat, n: nat, prev: nat, prevLen: nat, ptr: nat, len: nat, data: string, ghost c: Cursor,
          ghost d: Cursor)
        returns (newPrev: nat, newPrevLen: nat)
      requires HasTable() && k + n <= buffer.Length && len > 0 && ptr + len <= k + n
      requires d == Cursor(buffer[..k + n], ptr, len) && c.prev == prev && c.prevLen == prevLen
      modifies this`log
      ensures var (e, es) := LineParser.Conclude(Table(cmds), c, d, k, data);
        Cursor(buffer[..k + n], newPrev, newPrevLen) == e && log == old(log) + es
    {
      var header := buffer[ptr..ptr + len];
      assert header == d.Prev() by {
        PrefixSlice(buffer[..], k + n, ptr, ptr + len);
      }
      var found := FindCommandHeader(header);
      if found.Some? {
        log := log + [Execute(found.value, header, data)];
        newPrev, newPrevLen := ptr, len;
      } else {
        var text := Trimmed(k, n);
        PrefixSlice(buffer[..], k + n, k, k + n);
        log := log + [UndefinedHeader(text)];
        newPrev, newPrevLen := prev, prevLen;
      }
    }

    /** What `SCPI_Parse` does with the unit at `k`. */
    method HandleUnit(k: nat, u: Unit, prev: nat, prevLen: nat, ghost c: Cursor, ghost t: string)
        returns (newPrev: nat, newPrevLen: nat)
      requires HasTable() && |t| == u.consumed && k + |t| <= buffer.Length
      requires c == Cursor(buffer[..k], prev, prevLen) && t == buffer[k..k + |t|]
      requires c.Inside() && Spanned(u, t)
      modifies this`log, buffer
      ensures buffer[k + |t|..] == old(buffer[k + |t|..])
      ensures Cursor(buffer[..k + |t|], newPrev, newPrevLen) == Handle(Table(cmds), c, t, u).0
      ensures log == old(log) + Handle(Table(cmds), c, t, u).1
    {
      newPrev, newPrevLen := prev, prevLen;
      if u.header.kind == INVALID {
        log := log + [InvalidCharacter];
      } else if u.header.len > 0 {
        newPrev, newPrevLen := HandleHeader(k, u, prev, prevLen, c, t);
        return;
      }
      assert buffer[..k + |t|] == c.done + t;
    }

    /** `SCPI_Parse` of the first `n` bytes of the buffer. */
    method Parse(n: nat)
      requires HasTable() && n <= buffer.Length
      modifies this`log, buffer
      ensures log == old(log) + ParseLine(Table(cmds), old(buffer[..n]))
      ensures buffer[n..] == old(buffer[n..])
    {
      ghost var find, was, s := Table(cmds), log, buffer[..n];
      var k: nat, prev: nat, prevLen: nat, more := 0, 0, 0, true;
      ghost var c := START;
      assert buffer[0..n] == buffer[..n] && buffer[..0] == "";
      while more
        invariant k <= n && c.Inside() && buffer[n..] == old(buffer[n..])
        invariant more ==> c == Cursor(buffer[..k], prev, prevLen) && s == buffer[k..n]
        invariant if more then log + ParseFrom(find, c, s) == was + ParseLine(find, old(buffer[..n]))
          else log == was + ParseLine(find, old(buffer[..n]))
        decreases more, n - k
      {
        ghost var u := ScanUnit(s);
        ParseStep(find, c, s, log);
        k, prev, prevLen, more := ParseUnit(k, n, prev, prevLen, c, s);
        c, s := Handle(find, c, s[..u.consumed], u).0, s[u.consumed..];
      }
    }

    /** The loop body of `SCPI_Parse`. */
    method ParseUnit(k: nat, n: nat, prev: nat, prevLen: nat, ghost c: Cursor, ghost s: string)
        returns (next: nat, newPrev: nat, newPrevLen: nat, more: bool)
      requires HasTable() && k <= n <= buffer.Length && c == Cursor(buffer[..k], prev, prevLen) && c.Inside()
      requires s == buffer[k..n]
      modifies this`log, buffer
      ensures next == k + ScanUnit(s).consumed <= n && (more <==> next < n) && (more ==> k < next)
      ensures Spanned(ScanUnit(s), s[..ScanUnit(s).consumed])
      ensures var (d, es) := Handle(Table(cmds), c, s[..ScanUnit(s).consumed], ScanUnit(s));
        Cursor(buffer[..next], newPrev, newPrevLen) == d && log == old(log) + es
      ensures buffer[next..n] == s[ScanUnit(s).consumed..] && buffer[n..] == old(buffer[n..])
    {
      var u := DetectProgramMessageUnit(buffer[k..n]);
      FirstSpanned(s);
      Progress(s);
      next := k + u.consumed;
      ghost var mem := buffer[..];
      PrefixOf(mem, k, next, n);
      assert s == mem[k..n] && buffer[k..next] == mem[k..next] && mem[n..] == buffer[n..];
      newPrev, newPrevLen := HandleUnit(k, u, prev, prevLen, c, s[..u.consumed]);
      ghost var now := buffer[..];
      assert now[next..] == buffer[next..];
      SameTail(mem, now, next, n);
      assert buffer[next..n] == now[next..n] && buffer[n..] == now[n..];
      more := u.consumed < n - k;
    }

    /** `SCPI_Input`: the buffer keeps what is pending, and the complete messages have been parsed. */
    method Input(data: string)
      requires Valid()
      modifies this`position, this`log, buffer
      ensures Valid()
      ensures var (kept, es) := Feed(Table(cmds), buffer.Length, old(buffer[..position]), data);
        buffer[..position] == kept && log == old(log) + es
      ensures data == "" ==> position == 0 && log == old(log) + ParseLine(Table(cmds), old(buffer[..position]))
      ensures data != "" && old(position) + |data| >= buffer.Length ==>
        position == 0 && log == old(log) + [InputBufferOverrun]
    {
      if |data| == 0 {
        buffer[position] := NUL;
        Parse(position);
        position := 0;
        return;
      }
      var bufferFree := buffer.Length - position;
      if |data| > bufferFree - 1 {
        position := 0;
        buffer[position] := NUL;
        log := log + [InputBufferOverrun];
        return;
      }
      ghost var pending := buffer[..position];
      forall i | 0 <= i < |data| {
        buffer[position + i] := data[i];
      }
      position := position + |data|;
      buffer[position] := NUL;
      assert buffer[..position] == pending + data;
      FeedFits(Table(cmds), buffer.Length, pending, data);
      Drain();
    }

    /** Any sequence of inputs, with what it comes to when a steady stream arrives in an empty buffer. */
    method InputAll(chunks: seq<string>)
      requires Valid()
      modifies this`position, this`log, buffer
      ensures Valid()
      ensures var (kept, es) := FeedAll(Table(cmds), buffer.Length, old(buffer[..position]), chunks);
        buffer[..position] == kept && log == old(log) + es
      ensures old(position) == 0 && NoOverrun(buffer.Length, "", chunks) && Steady(Flat(chunks)) ==>
        buffer[..position] == Pending(Flat(chunks)) && log == old(log) + Executed(Table(cmds), Flat(chunks))
      decreases |chunks|
    {
      ghost var pending, was := buffer[..position], log;
      if chunks != [] {
        Input(chunks[0]);
        ghost var (kept, es) := Feed(Table(cmds), buffer.Length, pending, chunks[0]);
        InputAll(chunks[1..]);
        EventsRegroup(was, es, FeedAll(Table(cmds), buffer.Length, kept, chunks[1..]).1);
      }
      if pending == "" && NoOverrun(buffer.Length, "", chunks) && Steady(Flat(chunks)) {
        SteadyAgrees(Table(cmds), Flat(chunks));
      }
    }

    /** The loop of `SCPI_Input`. */
    method Drain()
      requires Valid()
      modifies this`position, this`log, buffer
      ensures Valid()
      ensures buffer[..position] == Pending(old(buffer[..position]))
      ensures log == old(log) + Executed(Table(cmds), old(buffer[..position]))
    {
      ghost var find, all, was := Table(cmds), buffer[..position], log;
      var tot: nat, more := 0, true;
      ghost var s := all;
      StartAgain(s);
      while more
        invariant Valid() && tot <= position && s == buffer[..position]
        invariant Pending(s) == Pending(all) && log + Executed(find, s) == was + Executed(find, all)
        invariant more ==> SoFar(s, tot)
        invariant !more ==> MessageEnd(s) == None
        decreases more, position - tot
      {
        var newline, last;
        tot, newline, last := NextTot(tot, s);
        if newline {
          LogFirst(find, s, tot, log);
          TakeMessage(tot, s);
          s := s[tot..];
          tot := 0;
          StartAgain(s);
        } else if last {
          more := false;
        }
      }
      NoMessage(find, s);
    }

    /** Scan the next unit: does it end a message, and is it the last one? */
    method NextTot(tot: nat, ghost s: string) returns (next: nat, newline: bool, last: bool)
      requires Valid() && tot <= position && s == buffer[..position] && SoFar(s, tot)
      ensures tot <= next <= position
      ensures newline ==> tot < next && MessageEnd(s) == Some(next)
      ensures !newline && !last ==> tot < next && SoFar(s, next)
      ensures !newline && last ==> MessageEnd(s) == None
    {
      assert buffer[tot..position] == s[tot..];
      var u := DetectProgramMessageUnit(buffer[tot..position]);
      ScanStep(s, tot, u.consumed);
      NoHeaderAtEnd(s[tot..]);
      next := tot + u.consumed;
      newline := u.termination == NEWLINE;
      last := !newline && ((u.header.kind == UNKNOWN && u.termination == NONE) || next >= position);
    }

    /** Parse the first message of the buffer and move the rest to its start. */
    method TakeMessage(n: nat, ghost s: string)
      requires Valid() && n <= position && s == buffer[..position]
      modifies this`position, this`log, buffer
      ensures Valid() && buffer[..position] == s[n..] && log == old(log) + ParseLine(Table(cmds), s[..n])
    {
      ghost var mem := buffer[..];
      assert s[..n] == buffer[..n] && mem[n..] == buffer[n..];
      Parse(n);
      ghost var now := buffer[..];
      assert now[n..] == buffer[n..];
      SameTail(mem, now, n, position);
      forall i | 0 <= i < position - n {
        buffer[i] := buffer[n + i];
      }
      assert buffer[..position - n] == now[n..position];
      position := position - n;
    }
  }

  /** The first break of the loop in `SCPI_Input` is taken only at the end of the buffer. */
  lemma NoHeaderAtEnd(s: string)
    ensures var u := ScanUnit(s); u.header.kind == UNKNOWN && u.termination == NONE ==> u.consumed == |s|
  {
    ScanUnitIs(s);
  }

  /** The units before `tot` hold no message end. */
  ghost predicate SoFar(s: string, tot: nat) {
    tot <= |s| && MessageEnd(s) == Later(tot, MessageEnd(s[tot..]))
  }

  lemma StartAgain(s: string)
    ensures SoFar(s, 0)
  {
    assert s[0..] == s;
  }

  /** How one turn of the loop of `SCPI_Input` decides. */
  lemma ScanStep(s: string, tot: nat, n: nat)
    requires SoFar(s, tot) && n == ScanUnit(s[tot..]).consumed
    ensures tot + n <= |s|
    ensures var newline := ScanUnit(s[tot..]).termination == NEWLINE;
      && (newline ==> n > 0 && MessageEnd(s) == Some(tot + n))
      && (!newline && tot + n < |s| ==> n > 0 && SoFar(s, tot + n))
      && (!newline && tot + n == |s| ==> MessageEnd(s) == None)
  {
    var r := s[tot..];
    NextUnit(r);
    if ScanUnit(r).termination != NEWLINE && tot + n < |s| {
      SliceTwice(s, tot, n);
      LaterTwice(tot, n, MessageEnd(s[tot + n..]));
    }
  }

  lemma LaterTwice(a: nat, b: nat, e: Option<nat>)
    ensures Later(a, Later(b, e)) == Later(a + b, e)
  {
  }

  lemma SliceTwice(s: string, a: nat, b: nat)
    requires a + b <= |s|
    ensures s[a..][b..] == s[a + b..]
  {
  }

  lemma LogFirst(find: Lookup, s: string, e: nat, log: seq<Event>)
    requires MessageEnd(s) == Some(e)
    ensures log + Executed(find, s) == (log + ParseLine(find, s[..e])) + Executed(find, s[e..])
    ensures Pending(s) == Pending(s[e..])
  {
    MessageFirst(find, s, e);
  }

  /** One unit and the rest of the line, behind what has been logged. */
  lemma ParseStep(find: Lookup, c: Cursor, s: string, log: seq<Event>)
    requires c.Inside()
    ensures var u := ScanUnit(s); var t := s[..u.consumed]; Spanned(u, t) && var (d, es) := Handle(find, c, t, u);
      log + ParseFrom(find, c, s) ==
        if u.consumed < |s| then (log + es) + ParseFrom(find, d, s[u.consumed..]) else log + es
  {
    var u := ScanUnit(s);
    LineEndings.ParseIs(find, c, s, u);
    Progress(s);
    if u.consumed < |s| {
      var (d, es) := Handle(find, c, s[..u.consumed], u);
      EventsRegroup(log, es, ParseFrom(find, d, s[u.consumed..]));
    }
  }

  lemma PrefixOf(mem: string, k: nat, next: nat, n: nat)
    requires k <= next <= n <= |mem|
    ensures mem[k..n][..next - k] == mem[k..next] && mem[k..n][next - k..] == mem[next..n]
  {
  }

  lemma SameTail(a: string, b: string, k: nat, n: nat)
    requires |a| == |b| && k <= n <= |a| && a[k..] == b[k..]
    ensures a[k..n] == b[k..n] && a[n..] == b[n..]
  {
    assert a[k..][..n - k] == a[k..n] && b[k..][..n - k] == b[k..n];
    assert a[k..][n - k..] == a[n..] && b[k..][n - k..] == b[n..];
  }

  lemma PrefixSlice(s: string, n: nat, a: nat, b: nat)
    requires a <= b <= n <= |s|
    ensures s[..n][a..b] == s[a..b] && (b == n ==> s[..n][a..] == s[a..b])
  {
  }

  /** The buffer after composition holds what the specification composes. */
  lemma ComposedHere(mem: string, k: nat, n: nat, u: Unit, prev: nat, prevLen: nat, now: string, ptr: nat, len: nat)
    requires k <= n <= |mem| && prev + prevLen <= k && Headed(u) && Spanned(u, mem[k..n])
    requires var h := k + u.header.ptr; var i := Inherited(mem[prev..prev + prevLen], mem[h..h + u.header.len]);
      ptr == h - i && len == u.header.len + i && now == Moved(mem, ptr, prev, i)
    ensures Compose(Cursor(mem[..k], prev, prevLen), mem[k..n], u.header) == Cursor(now[..n], ptr, len)
    ensures now[n..] == mem[n..]
  {
    var i := len - u.header.len;
    HeaderTexts(mem, k, n, u, prev, prevLen);
    ComposeIs(Cursor(mem[..k], prev, prevLen), mem[k..n], u.header, mem[..n], i);
    MovedPrefix(mem, n, ptr, prev, i);
  }

  lemma HeaderTexts(mem: string, k: nat, n: nat, u: Unit, prev: nat, prevLen: nat)
    requires k <= n <= |mem| && prev + prevLen <= k && Spanned(u, mem[k..n])
    ensures Cursor(mem[..k], prev, prevLen).Prev() == mem[prev..prev + prevLen]
    ensures Text(mem[k..n], u.header) == mem[k + u.header.ptr..k + u.header.ptr + u.header.len]
    ensures mem[..k] + mem[k..n] == mem[..n]
  {
    PrefixSlice(mem, k, prev, prev + prevLen);
    SliceOfSlice(mem, k, n, u.header);
  }

  lemma ComposeIs(c: Cursor, t: string, k: Token, mem: string, i: nat)
    requires c.Inside() && k.len > 0 && k.ptr + k.len <= |t| && mem == c.done + t &&
      i == Inherited(c.Prev(), Text(t, k))
    ensures var h := |c.done| + k.ptr; Compose(c, t, k) == Cursor(Moved(mem, h - i, c.prev, i), h - i, k.len + i)
  {
  }

  lemma ComposedFor(c: Cursor, t: string, mem: string, k: nat, n: nat, u: Unit, now: string, ptr: nat, len: nat)
    requires k <= n <= |mem| && c.done == mem[..k] && t == mem[k..n] && c.Inside() && Headed(u) && Spanned(u, t)
    requires var h := k + u.header.ptr;
      var i := Inherited(mem[c.prev..c.prev + c.prevLen], mem[h..h + u.header.len]);
      ptr == h - i && len == u.header.len + i && now == Moved(mem, ptr, c.prev, i)
    ensures Compose(c, t, u.header) == Cursor(now[..n], ptr, len) && now[n..] == mem[n..]
    ensures ptr + len <= n && len > 0
  {
    ComposedHere(mem, k, n, u, c.prev, c.prevLen, now, ptr, len);
  }

  lemma SliceOfSlice(mem: string, k: nat, n: nat, token: Token)
    requires k + token.ptr + token.len <= n <= |mem|
    ensures Text(mem[k..n], token) == mem[k + token.ptr..k + token.ptr + token.len]
  {
  }
}
