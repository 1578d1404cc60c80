/** The header-path rule on lines that are parsed in place: exactly when overwriting a path does no harm. */
module HeaderPaths {
  import opened Lexer
  import opened Scanner
  import opened Extension
  import opened Messages
  import opened LineParser
  import opened Spans

  predicate Rooted(cur: string)
    requires cur != ""
  {
    cur[0] == '*' || cur[0] == ':'
  }

  /** The path that a header leaves to the next one. */
  function PathOf(header: string): string {
    if header == "" || header[0] == '*' then "" else header[..PathLength(header, |header|)]
  }

  lemma {:induction false} PathIsLastColon(header: string, n: nat)
    requires n <= |header|
    ensures var i := PathLength(header, n);
      (i > 0 ==> header[i - 1] == ':') && forall j | i <= j < n :: header[j] != ':'
  {
    if n > 0 && header[n - 1] != ':' {
      PathIsLastColon(header, n - 1);
    }
  }

  lemma ResolveIs(prev: string, cur: string)
    requires cur != ""
    ensures Inherited(prev, cur) == if Rooted(cur) then 0 else |PathOf(prev)|
    ensures Resolve(prev, cur) == if Rooted(cur) then cur else PathOf(prev) + cur
  {
  }

  /** A header of which the bytes from offset `m` on have been overwritten with its first bytes. */
  function Overlaid(p: string, m: nat): (r: string)
    ensures |r| == |p|
  {
    if m >= |p| then p else p[..m] + p[..|p| - m]
  }

  /** Composition overlays the previous header with the path that it moves, if that starts within it. */
  lemma MovedOver(done: string, t: string, prev: nat, len: nat, i: nat, h: nat)
    requires prev + len <= |done| <= h <= |done + t| && i <= len
    ensures Moved(done + t, h - i, prev, i)[prev..prev + len] == Overlaid(done[prev..prev + len], h - i - prev)
  {
    var mem, m := done + t, h - i - prev;
    var now := Moved(mem, h - i, prev, i);
    var q, r := now[prev..prev + len], Overlaid(done[prev..prev + len], m);
    forall j | 0 <= j < len ensures q[j] == r[j] {
      assert mem[prev + j] == done[prev + j] && q[j] == now[prev + j];
      if j >= m {
        assert now[prev + j] == mem[prev + (j - m)] == done[prev + (j - m)];
      }
    }
  }

  /**
   The bytes of a path of `i` bytes, and those behind it, keep their last colon when they are overlaid from `m` on.
   */
  predicate Spared(p: string, i: nat, m: nat)
    requires i <= |p|
  {
    (forall j | m <= j < i :: p[j] == p[j - m]) && (forall j | 0 <= j && i - m <= j < |p| - m :: p[j] != ':')
  }

  lemma LastColonIs(q: string, i: nat)
    requires 0 < i <= |q| && q[i - 1] == ':' && forall j | i <= j < |q| :: q[j] != ':'
    ensures PathLength(q, |q|) == i
  {
    PathIsLastColon(q, |q|);
  }

  lemma OverlaidAt(p: string, m: nat, j: nat)
    requires j < |p|
    ensures Overlaid(p, m)[j] == if j < m then p[j] else p[j - m]
  {
  }

  /** What `PathOf` gives is what ends with the last colon. */
  lemma PathIs(q: string, i: nat)
    requires 0 < i <= |q| && q[0] != '*'
    ensures |PathOf(q)| == i <==> q[i - 1] == ':' && forall j | i <= j < |q| :: q[j] != ':'
    ensures |PathOf(q)| == i ==> PathOf(q) == q[..i]
  {
    PathIsLastColon(q, |q|);
    if q[i - 1] == ':' && forall j | i <= j < |q| :: q[j] != ':' {
      LastColonIs(q, i);
    }
  }

  lemma SparedPath(p: string, i: nat, m: nat)
    requires 0 < i == |PathOf(p)| && m < |p| <= m + i && Spared(p, i, m)
    ensures PathOf(Overlaid(p, m)) == PathOf(p)
  {
    var q := Overlaid(p, m);
    PathIs(p, i);
    forall j | 0 <= j < |p| ensures q[j] == if j < m then p[j] else p[j - m] {
      OverlaidAt(p, m, j);
    }
    PathIs(q, i);
    assert q[..i] == p[..i];
  }

  lemma PathSpared(p: string, i: nat, m: nat)
    requires 0 < i == |PathOf(p)| && m < |p| <= m + i && PathOf(Overlaid(p, m)) == PathOf(p)
    ensures Spared(p, i, m)
  {
    var q := Overlaid(p, m);
    OverlaidAt(p, m, 0);
    PathIs(p, i);
    PathIs(q, i);
    forall j | m <= j < i ensures p[j] == p[j - m] {
      OverlaidAt(p, m, j);
      assert q[..i][j] == p[..i][j];
    }
    forall j | 0 <= j && i - m <= j < |p| - m ensures p[j] != ':' {
      OverlaidAt(p, m, j + m);
    }
  }

  /** The path of an overlaid header is the old one exactly when it was spared. */
  lemma OverlaidPath(p: string, i: nat, m: nat)
    requires i <= |p| <= m + i && (i == 0 || i == |PathOf(p)|)
    ensures PathOf(Overlaid(p, m)) == PathOf(p) <==> Spared(p, i, m)
  {
    if i > 0 && m < |p| {
      if Spared(p, i, m) {
        SparedPath(p, i, m);
      }
      if PathOf(Overlaid(p, m)) == PathOf(p) {
        PathSpared(p, i, m);
      }
    }
  }

  /** A header far enough behind the previous one spares all of it. */
  lemma FarSpares(p: string, i: nat, m: nat)
    requires i <= |p| <= m
    ensures Spared(p, i, m) && Overlaid(p, m) == p
  {
  }

  /** With one colon, the path is spared exactly when the overlay starts behind it. */
  lemma OneColon(p: string, i: nat, m: nat)
    requires 0 < i <= |p| < m + i && p[i - 1] == ':' && forall j | 0 <= j < |p| && j != i - 1 :: p[j] != ':'
    requires 0 < m
    ensures Spared(p, i, m) <==> i <= m
  {
    if m < i {
      assert p[i - 1] != p[i - 1 - m];
    }
  }

  /**
   With several colons an overlay behind the path can add a colon, and one that starts within the path can be the same
   bytes.
   */
  lemma SeveralColons()
    ensures PathOf("A:B:CDEFG") == "A:B:" && !Spared("A:B:CDEFG", 4, 6)
    ensures PathOf("A:A:B") == "A:A:" && Spared("A:A:B", 4, 2)
  {
    LastColonIs("A:B:CDEFG", 4);
    LastColonIs("A:A:B", 4);
    assert "A:B:CDEFG"[1] == ':';
  }

  /** Whether a path is spared depends only on the path and the length of its header. */
  lemma SparedAlike(p: string, q: string, i: nat, m: nat)
    requires i <= |p| == |q| <= m + i && forall j | 0 <= j < i :: p[j] == q[j]
    ensures Spared(p, i, m) <==> Spared(q, i, m)
  {
    if Spared(p, i, m) {
      SparedTo(p, q, i, m);
    }
    if Spared(q, i, m) {
      SparedTo(q, p, i, m);
    }
  }

  lemma SparedTo(p: string, q: string, i: nat, m: nat)
    requires i <= |p| == |q| <= m + i && forall j | 0 <= j < i :: p[j] == q[j]
    requires Spared(p, i, m)
    ensures Spared(q, i, m)
  {
  }

  /**
   A line read on an untouched copy: how many bytes have been passed, where the previous header stands in the real
   buffer, what it was, and whether its path has been overwritten there.
   */
  datatype Walk = Walk(at: nat, prev: nat, header: string, spoilt: bool) {
    predicate Inside() {
      prev + |header| <= at
    }
  }

  const BEGIN := Walk(0, 0, "", false)

  /** A header that continues a path needs one that has not been overwritten. */
  predicate Fits(w: Walk, t: string, u: Unit)
    requires Spanned(u, t)
  {
    Headed(u) && w.spoilt ==> Rooted(Text(t, u.header))
  }

  /** Passing a unit: a header that is found is the previous one, one that is not can overwrite it. */
  function Step(find: Lookup, w: Walk, t: string, u: Unit): (v: Walk)
    requires w.Inside() && Spanned(u, t)
    ensures v.Inside() && v.at == w.at + |t|
  {
    if !Headed(u) then w.(at := w.at + |t|)
    else
      var cur := Text(t, u.header);
      var i := Inherited(w.header, cur);
      var start := w.at + u.header.ptr - i;
      if find(Resolve(w.header, cur)).Some? then Walk(w.at + |t|, start, Resolve(w.header, cur), false)
      else Walk(w.at + |t|, w.prev, w.header, w.spoilt || !Spared(w.header, i, start - w.prev))
  }

  /** No header of the line continues a path that an undefined header before it has overwritten. */
  ghost predicate KeepsPaths(find: Lookup, w: Walk, s: string)
    requires w.Inside()
    decreases |s|
  {
    FirstSpanned(s);
    var u := ScanUnit(s);
    var t := s[..u.consumed];
    Fits(w, t, u) && (0 < u.consumed < |s| ==> KeepsPaths(find, Step(find, w, t, u), s[u.consumed..]))
  }

  /** The header that is looked up for a unit, if it has one. */
  function Look(c: Cursor, t: string, u: Unit): seq<string>
    requires c.Inside() && Spanned(u, t)
  {
    if Headed(u) then [Compose(c, t, u.header).Prev()] else []
  }

  function PureLook(prev: string, t: string, u: Unit): seq<string>
    requires Spanned(u, t)
  {
    if Headed(u) then [Resolve(prev, Text(t, u.header))] else []
  }

  /** The headers that parsing in place looks up. */
  ghost function Sought(find: Lookup, c: Cursor, s: string): seq<string>
    requires c.Inside()
    decreases |s|
  {
    FirstSpanned(s);
    var u := ScanUnit(s);
    var t := s[..u.consumed];
    if 0 < u.consumed < |s| then Look(c, t, u) + Sought(find, Handle(find, c, t, u).0, s[u.consumed..])
      else Look(c, t, u)
  }

  /** The headers that the header-path rule gives. */
  ghost function PureSought(find: Lookup, prev: string, s: string): seq<string>
    decreases |s|
  {
    FirstSpanned(s);
    var u := ScanUnit(s);
    var t := s[..u.consumed];
    if 0 < u.consumed < |s| then PureLook(prev, t, u) + PureSought(find, PureHandle(find, prev, t, u).0,
      s[u.consumed..])
    else PureLook(prev, t, u)
  }

  /** The cursor in the real buffer is where the walk is, and has the same path exactly when that is not spoilt. */
  predicate Follows(c: Cursor, w: Walk) {
    && c.Inside() && |c.done| == w.at && c.prev == w.prev && c.prevLen == |w.header|
    && (PathOf(c.Prev()) == PathOf(w.header) <==> !w.spoilt)
  }

  /** Header by header: the composed header is the resolved one exactly when the unit fits. */
  lemma ComposedFits(c: Cursor, w: Walk, t: string, u: Unit)
    requires Follows(c, w) && Spanned(u, t) && Headed(u)
    ensures Compose(c, t, u.header).Prev() == Resolve(w.header, Text(t, u.header)) <==> Fits(w, t, u)
    ensures Fits(w, t, u) ==> Inherited(c.Prev(), Text(t, u.header)) == Inherited(w.header, Text(t, u.header))
  {
    var cur := Text(t, u.header);
    ComposeResolves(c, t, u.header);
    ResolveIs(c.Prev(), cur);
    ResolveIs(w.header, cur);
    if !Rooted(cur) && PathOf(c.Prev()) + cur == PathOf(w.header) + cur {
      SameFront(PathOf(c.Prev()), PathOf(w.header), cur);
    }
  }

  lemma SameFront(a: string, b: string, x: string)
    requires a + x == b + x
    ensures a == b
  {
    assert |a| == |b|;
    assert (a + x)[..|a|] == a && (b + x)[..|b|] == b;
  }

  lemma ComposedDone(c: Cursor, t: string, k: Token, i: nat)
    requires c.Inside() && k.len > 0 && k.ptr + k.len <= |t| && i == Inherited(c.Prev(), Text(t, k))
    ensures i <= c.prevLen && Compose(c, t, k).done == Moved(c.done + t, |c.done| + k.ptr - i, c.prev, i)
  {
  }

  lemma PrevIn(c: Cursor, mem: string)
    requires c.Inside() && |c.done| <= |mem|
    ensures c.(done := mem).Inside() && c.(done := mem).Prev() == mem[c.prev..c.prev + c.prevLen]
  {
  }

  lemma PrevMoved(c: Cursor, t: string, i: nat, h: nat, now: string)
    requires c.Inside() && i <= c.prevLen && |c.done| <= h <= |c.done| + |t| &&
      now == Moved(c.done + t, h - i, c.prev, i)
    ensures c.(done := now).Prev() == Overlaid(c.Prev(), h - i - c.prev)
  {
    PrevIn(c, now);
    MovedOver(c.done, t, c.prev, c.prevLen, i, h);
  }

  /** The previous header in the buffer after a header that was not found. */
  lemma PrevAfter(c: Cursor, t: string, k: Token, i: nat)
    requires c.Inside() && k.len > 0 && k.ptr + k.len <= |t| && i == Inherited(c.Prev(), Text(t, k))
    ensures c.(done := Compose(c, t, k).done).Prev() == Overlaid(c.Prev(), |c.done| + k.ptr - i - c.prev)
  {
    ComposedDone(c, t, k, i);
    PrevMoved(c, t, i, |c.done| + k.ptr, Compose(c, t, k).done);
  }

  /** An undefined header leaves the path of the previous one exactly when it spares it. */
  lemma UndefinedSpares(c: Cursor, t: string, k: Token, i: nat)
    requires c.Inside() && k.len > 0 && k.ptr + k.len <= |t| && i == Inherited(c.Prev(), Text(t, k))
    ensures PathOf(c.(done := Compose(c, t, k).done).Prev()) == PathOf(c.Prev()) <==>
      Spared(c.Prev(), i, |c.done| + k.ptr - i - c.prev)
  {
    var m := |c.done| + k.ptr - i - c.prev;
    PrevAfter(c, t, k, i);
    OverlaidBy(c.Prev(), c.(done := Compose(c, t, k).done).Prev(), Text(t, k), i, m);
  }

  lemma OverlaidBy(p: string, q: string, cur: string, i: nat, m: nat)
    requires cur != "" && i == Inherited(p, cur) && |p| <= m + i && q == Overlaid(p, m)
    ensures PathOf(q) == PathOf(p) <==> Spared(p, i, m)
  {
    InheritedPath(p, cur);
    OverlaidPath(p, i, m);
  }

  lemma InheritedPath(prev: string, cur: string)
    requires cur != ""
    ensures var i := Inherited(prev, cur);
      (i == 0 || i == |PathOf(prev)|) && i <= |prev| && (i > 0 ==> prev[i - 1] == ':')
  {
    ResolveIs(prev, cur);
    PathIsLastColon(prev, |prev|);
  }

  lemma SamePathBytes(p: string, q: string, i: nat)
    requires PathOf(p) == PathOf(q) && |p| == |q| && i <= |PathOf(p)|
    ensures i <= |p| && forall j | 0 <= j < i :: p[j] == q[j]
  {
    assert forall j | 0 <= j < i :: p[j] == PathOf(p)[j] == q[j];
  }

  lemma StepUndefined(find: Lookup, c: Cursor, w: Walk, t: string, u: Unit)
    requires Follows(c, w) && Spanned(u, t) && Headed(u) && Fits(w, t, u)
    requires find(Resolve(w.header, Text(t, u.header))).None?
    ensures Follows(c.(done := Compose(c, t, u.header).done), Step(find, w, t, u))
  {
    var cur := Text(t, u.header);
    var i := Inherited(w.header, cur);
    var m := w.at + u.header.ptr - i - w.prev;
    ComposedFits(c, w, t, u);
    UndefinedSpares(c, t, u.header, i);
    PrevAfter(c, t, u.header, i);
    ResolveIs(w.header, cur);
    if w.spoilt {
      FarSpares(c.Prev(), 0, m);
    } else {
      SamePathBytes(c.Prev(), w.header, i);
      SparedAlike(c.Prev(), w.header, i, m);
    }
  }

  /** Each unit that fits keeps cursor and walk together. */
  lemma StepFollows(find: Lookup, c: Cursor, w: Walk, t: string, u: Unit)
    requires Follows(c, w) && Spanned(u, t) && Fits(w, t, u)
    ensures Follows(Handle(find, c, t, u).0, Step(find, w, t, u))
    ensures PureHandle(find, w.header, t, u).0 == Step(find, w, t, u).header
  {
    if !Headed(u) {
      PrevKept(c, t);
    } else {
      ComposedFits(c, w, t, u);
      if find(Resolve(w.header, Text(t, u.header))).None? {
        StepUndefined(find, c, w, t, u);
      }
    }
  }

  lemma PrevKept(c: Cursor, t: string)
    requires c.Inside()
    ensures c.(done := c.done + t).Prev() == c.Prev()
  {
  }

  /** The three recursions on one unit of text `t` and the rest `r`. */
  lemma UnitAndRest(find: Lookup, c: Cursor, w: Walk, s: string, t: string, u: Unit, r: string)
    requires c.Inside() && w.Inside() && u == ScanUnit(s) && t == s[..u.consumed] && r == s[u.consumed..]
    ensures Spanned(u, t)
    ensures r != "" ==> |r| < |s|
    ensures Sought(find, c, s) == if r != "" then Look(c, t, u) + Sought(find, Handle(find, c, t, u).0, r)
      else Look(c, t, u)
    ensures PureSought(find, w.header, s) ==
      if r != "" then PureLook(w.header, t, u) + PureSought(find, PureHandle(find, w.header, t, u).0, r)
      else PureLook(w.header, t, u)
    ensures KeepsPaths(find, w, s) <==> Fits(w, t, u) && (r != "" ==> KeepsPaths(find, Step(find, w, t, u), r))
  {
    FirstSpanned(s);
    Progress(s);
  }

  lemma LookFits(c: Cursor, w: Walk, t: string, u: Unit)
    requires Follows(c, w) && Spanned(u, t)
    ensures |Look(c, t, u)| == |PureLook(w.header, t, u)|
    ensures Look(c, t, u) == PureLook(w.header, t, u) <==> Fits(w, t, u)
  {
    if Headed(u) {
      ComposedFits(c, w, t, u);
      assert Look(c, t, u)[0] == Compose(c, t, u.header).Prev();
      assert PureLook(w.header, t, u)[0] == Resolve(w.header, Text(t, u.header));
    }
  }

  lemma SameParts<T>(a: seq<T>, b: seq<T>, x: seq<T>, y: seq<T>)
    requires |a| == |b|
    ensures a + x == b + y <==> a == b && x == y
  {
    if a + x == b + y {
      assert (a + x)[..|a|] == a && (b + y)[..|a|] == b;
      assert (a + x)[|a|..] == x && (b + y)[|a|..] == y;
    }
  }

  /** In-place parsing looks up the headers of the header-path rule exactly when none continues an overwritten path. */
  lemma {:induction false} PathsExact(find: Lookup, c: Cursor, w: Walk, s: string)
    requires Follows(c, w)
    ensures Sought(find, c, s) == PureSought(find, w.header, s) <==> KeepsPaths(find, w, s)
    decreases |s|
  {
    var u := ScanUnit(s);
    var t, r := s[..u.consumed], s[u.consumed..];
    UnitAndRest(find, c, w, s, t, u, r);
    LookFits(c, w, t, u);
    if r != "" {
      var d := Handle(find, c, t, u).0;
      SameParts(Look(c, t, u), PureLook(w.header, t, u), Sought(find, d, r),
                PureSought(find, PureHandle(find, w.header, t, u).0, r));
      if Fits(w, t, u) {
        StepFollows(find, c, w, t, u);
        PathsExact(find, d, Step(find, w, t, u), r);
      }
    }
  }

  /** The same events, but for the texts that are reported for undefined headers. */
  predicate Alike(es: seq<Event>, fs: seq<Event>) {
    |es| == |fs| && forall i | 0 <= i < |es| :: es[i] == fs[i] || (es[i].UndefinedHeader? && fs[i].UndefinedHeader?)
  }

  lemma HandleAlike(find: Lookup, c: Cursor, w: Walk, t: string, u: Unit)
    requires Follows(c, w) && Spanned(u, t) && Fits(w, t, u)
    ensures Alike(Handle(find, c, t, u).1, PureHandle(find, w.header, t, u).1)
  {
    if Headed(u) {
      ComposedFits(c, w, t, u);
    }
  }

  lemma EventsAndRest(find: Lookup, c: Cursor, prev: string, s: string, t: string, u: Unit, r: string)
    requires c.Inside() && u == ScanUnit(s) && t == s[..u.consumed] && r == s[u.consumed..]
    ensures Spanned(u, t)
    ensures ParseFrom(find, c, s) ==
      var (d, es) := Handle(find, c, t, u); if r != "" then es + ParseFrom(find, d, r) else es
    ensures PureParse(find, prev, s) ==
      var (h, es) := PureHandle(find, prev, t, u); if r != "" then es + PureParse(find, h, r) else es
  {
    FirstSpanned(s);
    Progress(s);
  }

  /** Then the events are the same, but for the reported texts. */
  lemma {:induction false} EventsAlike(find: Lookup, c: Cursor, w: Walk, s: string)
    requires Follows(c, w) && KeepsPaths(find, w, s)
    ensures Alike(ParseFrom(find, c, s), PureParse(find, w.header, s))
    decreases |s|
  {
    var u := ScanUnit(s);
    var t, r := s[..u.consumed], s[u.consumed..];
    UnitAndRest(find, c, w, s, t, u, r);
    EventsAndRest(find, c, w.header, s, t, u, r);
    HandleAlike(find, c, w, t, u);
    if r != "" {
      var (d, es) := Handle(find, c, t, u);
      var (h, fs) := PureHandle(find, w.header, t, u);
      StepFollows(find, c, w, t, u);
      EventsAlike(find, d, Step(find, w, t, u), r);
      AlikeParts(es, fs, ParseFrom(find, d, r), PureParse(find, h, r));
    }
  }

  lemma AlikeParts(a: seq<Event>, b: seq<Event>, x: seq<Event>, y: seq<Event>)
    requires Alike(a, b) && Alike(x, y)
    ensures Alike(a + x, b + y)
  {
  }

  /** The moved path does not reach into the reported text: there is no path, or no blank in front of the header. */
  predicate Tidy(find: Lookup, header: string, t: string, u: Unit)
    requires Spanned(u, t)
  {
    Headed(u) && find(Resolve(header, Text(t, u.header))).None? ==>
      Inherited(header, Text(t, u.header)) == 0 || u.header.ptr == 0
  }

  /** Every undefined header of the line is reported as it was received. */
  ghost predicate KeepsTexts(find: Lookup, header: string, s: string)
    decreases |s|
  {
    FirstSpanned(s);
    var u := ScanUnit(s);
    var t := s[..u.consumed];
    Tidy(find, header, t, u) && (0 < u.consumed < |s| ==>
      KeepsTexts(find, PureHandle(find, header, t, u).0, s[u.consumed..]))
  }

  lemma KeepsTextsIs(find: Lookup, header: string, s: string, t: string, u: Unit, r: string)
    requires u == ScanUnit(s) && t == s[..u.consumed] && r == s[u.consumed..]
    ensures Spanned(u, t) && (r != "" ==> |r| < |s|)
    ensures KeepsTexts(find, header, s) <==>
      Tidy(find, header, t, u) && (r != "" ==> KeepsTexts(find, PureHandle(find, header, t, u).0, r))
  {
    FirstSpanned(s);
    Progress(s);
  }

  /** A header of a unit starts with no newline, behind blanks. */
  lemma HeaderStart(s: string)
    ensures var k := ScanUnit(s).header; Headed(ScanUnit(s)) ==>
      k.ptr < |s| && !IsNL(s[k.ptr]) && (k.ptr > 0 ==> In(s[k.ptr - 1], Blank))
  {
    ScanUnitIs(s);
    RunBefore(s, 0, Blank);
  }

  lemma {:induction false} RunBefore(s: string, p: nat, k: CharClass)
    requires p <= |s|
    ensures Run(s, p, k) > p ==> In(s[Run(s, p, k) - 1], k)
    decreases |s| - p
  {
    if p < |s| && In(s[p], k) {
      RunBefore(s, p + 1, k);
    }
  }

  /** Trimming newlines keeps everything up to a character that is none. */
  lemma {:induction false} TrimKeeps(s: string, n: nat)
    requires n < |s| && !IsNL(s[n])
    ensures n < |TrimNewlines(s)| <= |s| && TrimNewlines(s) == s[..|TrimNewlines(s)|]
    decreases |s|
  {
    if IsNL(s[|s| - 1]) {
      TrimKeeps(s[..|s| - 1], n);
    }
  }

  /** What a path of `i` bytes moved in front of offset `n` of the text does to the text. */
  lemma MovedText(done: string, t: string, prev: nat, i: nat, n: nat)
    requires prev + i <= |done| && n <= |t|
    ensures var r := Moved(done + t, |done| + n - i, prev, i)[|done|..];
      |r| == |t| && (forall j | n <= j < |t| :: r[j] == t[j]) && (i == 0 || n == 0 ==> r == t)
      && (i > 0 && n > 0 ==> r[n - 1] == done[prev + i - 1])
  {
    var mem, dst := done + t, |done| + n - i;
    var now := Moved(mem, dst, prev, i);
    var r := now[|done|..];
    MovedBytes(mem, dst, prev, i);
    assert forall j | 0 <= j < |t| :: r[j] == now[|done| + j] && mem[|done| + j] == t[j];
    if i > 0 && n > 0 {
      assert r[n - 1] == now[dst..dst + i][i - 1] == mem[prev..prev + i][i - 1];
    }
  }

  lemma MovedBytes(mem: string, dst: nat, src: nat, n: nat)
    requires dst + n <= |mem| && src + n <= |mem|
    ensures var now := Moved(mem, dst, src, n);
      && (forall j | 0 <= j < |mem| && !(dst <= j < dst + n) :: now[j] == mem[j])
      && now[dst..dst + n] == mem[src..src + n]
  {
  }

  /** The text of the unit after composition. */
  ghost predicate Reported(r: string, t: string, n: nat, i: nat)
    requires n <= |t|
  {
    && |r| == |t| && (forall j | n <= j < |t| :: r[j] == t[j])
    && (if i == 0 || n == 0 then r == t else r[n - 1] == ':')
  }

  lemma ReportedText(c: Cursor, t: string, k: Token, i: nat)
    requires c.Inside() && k.len > 0 && k.ptr + k.len <= |t| && i == Inherited(c.Prev(), Text(t, k))
    ensures Reported(Compose(c, t, k).done[|c.done|..], t, k.ptr, i)
  {
    ComposedDone(c, t, k, i);
    MovedText(c.done, t, c.prev, i, k.ptr);
    InheritedPath(c.Prev(), Text(t, k));
    PrevAt(c, i);
  }

  lemma PrevAt(c: Cursor, i: nat)
    requires c.Inside() && i <= c.prevLen
    ensures i > 0 ==> c.Prev()[i - 1] == c.done[c.prev + i - 1]
  {
  }

  /** Two texts that differ in front of a header are reported differently. */
  lemma ReportedDiffers(r: string, t: string, n: nat, i: nat)
    requires n < |t| && Reported(r, t, n, i) && !IsNL(t[n]) && (n > 0 ==> In(t[n - 1], Blank))
    ensures TrimNewlines(r) == TrimNewlines(t) <==> i == 0 || n == 0
  {
    if i > 0 && n > 0 {
      TrimKeeps(t, n);
      TrimKeeps(r, n);
      assert TrimNewlines(t)[n - 1] == t[n - 1] && TrimNewlines(r)[n - 1] == r[n - 1];
    }
  }

  /** The reported text is the received one exactly when nothing was moved over it. */
  lemma ReportExact(c: Cursor, s: string, t: string, u: Unit, i: nat)
    requires u == ScanUnit(s) && t == s[..u.consumed] && c.Inside() && Headed(u) && Spanned(u, t)
    requires i == Inherited(c.Prev(), Text(t, u.header))
    ensures TrimNewlines(Compose(c, t, u.header).done[|c.done|..]) == TrimNewlines(t) <==> i == 0 || u.header.ptr == 0
  {
    HeaderStart(s);
    ReportedText(c, t, u.header, i);
    ReportedDiffers(Compose(c, t, u.header).done[|c.done|..], t, u.header.ptr, i);
  }

  lemma HandleExact(find: Lookup, c: Cursor, w: Walk, s: string, t: string, u: Unit)
    requires u == ScanUnit(s) && t == s[..u.consumed] && Follows(c, w) && Spanned(u, t) && Fits(w, t, u)
    ensures Handle(find, c, t, u).1 == PureHandle(find, w.header, t, u).1 <==> Tidy(find, w.header, t, u)
  {
    if Headed(u) {
      ComposedFits(c, w, t, u);
      ReportExact(c, s, t, u, Inherited(c.Prev(), Text(t, u.header)));
      var es, fs := Handle(find, c, t, u).1, PureHandle(find, w.header, t, u).1;
      assert es[0] == fs[0] <==> es == fs;
    }
  }

  /** On such a line the events are all the same exactly when no reported text was overwritten. */
  lemma {:induction false} EventsExact(find: Lookup, c: Cursor, w: Walk, s: string)
    requires Follows(c, w) && KeepsPaths(find, w, s)
    ensures ParseFrom(find, c, s) == PureParse(find, w.header, s) <==> KeepsTexts(find, w.header, s)
    decreases |s|
  {
    var u := ScanUnit(s);
    var t, r := s[..u.consumed], s[u.consumed..];
    UnitAndRest(find, c, w, s, t, u, r);
    EventsAndRest(find, c, w.header, s, t, u, r);
    KeepsTextsIs(find, w.header, s, t, u, r);
    HandleAlike(find, c, w, t, u);
    HandleExact(find, c, w, s, t, u);
    if r != "" {
      var (d, es) := Handle(find, c, t, u);
      var (h, fs) := PureHandle(find, w.header, t, u);
      StepFollows(find, c, w, t, u);
      EventsExact(find, d, Step(find, w, t, u), r);
      SameParts(es, fs, ParseFrom(find, d, r), PureParse(find, h, r));
    }
  }

  lemma Beginning()
    ensures Follows(START, BEGIN)
  {
    assert START.Prev() == "";
  }

  /**
   The header-path rule for whole lines: the headers looked up are the resolved ones exactly when none continues an
   overwritten path, and then the same commands are executed with the same data; all events are the same exactly when
   no reported text was overwritten either.
   */
  lemma LineExact(find: Lookup, line: string)
    ensures Sought(find, START, line) == PureSought(find, "", line) <==> KeepsPaths(find, BEGIN, line)
    ensures KeepsPaths(find, BEGIN, line) ==> Alike(ParseLine(find, line), PureParse(find, "", line))
    ensures KeepsPaths(find, BEGIN, line) ==>
      (ParseLine(find, line) == PureParse(find, "", line) <==> KeepsTexts(find, "", line))
  {
    Beginning();
    PathsExact(find, START, BEGIN, line);
    if KeepsPaths(find, BEGIN, line) {
      EventsAlike(find, START, BEGIN, line);
      EventsExact(find, START, BEGIN, line);
    }
  }

  predicate Undefined(find: Lookup, header: string, t: string, u: Unit)
    requires Spanned(u, t)
  {
    Headed(u) && find(Resolve(header, Text(t, u.header))).None?
  }

  /**
   The header of the unit starts so far behind the previous one that the path moved in front of it does not reach
   that.
   */
  predicate Distant(w: Walk, t: string, u: Unit)
    requires w.Inside() && Spanned(u, t) && Headed(u)
  {
    w.prev + |w.header| <= w.at + u.header.ptr - Inherited(w.header, Text(t, u.header))
  }

  /** Every undefined header of the line is distant. */
  ghost predicate KeepsDistance(find: Lookup, w: Walk, s: string)
    requires w.Inside()
    decreases |s|
  {
    FirstSpanned(s);
    var u := ScanUnit(s);
    var t := s[..u.consumed];
    && (Undefined(find, w.header, t, u) ==> Distant(w, t, u))
    && (0 < u.consumed < |s| ==> KeepsDistance(find, Step(find, w, t, u), s[u.consumed..]))
  }

  lemma KeepsDistanceIs(find: Lookup, w: Walk, s: string, t: string, u: Unit, r: string)
    requires w.Inside() && u == ScanUnit(s) && t == s[..u.consumed] && r == s[u.consumed..]
    ensures Spanned(u, t) && (r != "" ==> |r| < |s|)
    ensures KeepsDistance(find, w, s) <==>
      (Undefined(find, w.header, t, u) ==> Distant(w, t, u)) && (r != "" ==>
        KeepsDistance(find, Step(find, w, t, u), r))
  {
    FirstSpanned(s);
    Progress(s);
  }

  /** A line whose undefined headers keep their distance keeps its paths. */
  lemma {:induction false} DistanceKeepsPaths(find: Lookup, w: Walk, s: string)
    requires w.Inside() && !w.spoilt && KeepsDistance(find, w, s)
    ensures KeepsPaths(find, w, s)
    decreases |s|
  {
    var u := ScanUnit(s);
    var t, r := s[..u.consumed], s[u.consumed..];
    KeepsDistanceIs(find, w, s, t, u, r);
    KeepsPathsIs(find, w, s, t, u, r);
    if Undefined(find, w.header, t, u) {
      var i := Inherited(w.header, Text(t, u.header));
      FarSpares(w.header, i, w.at + u.header.ptr - i - w.prev);
    }
    if r != "" {
      DistanceKeepsPaths(find, Step(find, w, t, u), r);
    }
  }

  lemma KeepsPathsIs(find: Lookup, w: Walk, s: string, t: string, u: Unit, r: string)
    requires w.Inside() && u == ScanUnit(s) && t == s[..u.consumed] && r == s[u.consumed..]
    ensures Spanned(u, t) && (r != "" ==> |r| < |s|)
    ensures KeepsPaths(find, w, s) <==> Fits(w, t, u) && (r != "" ==> KeepsPaths(find, Step(find, w, t, u), r))
  {
    FirstSpanned(s);
    Progress(s);
  }

  /** At least the terminator stands between the previous header and the current unit. */
  predicate Behind(w: Walk) {
    w.header == "" || w.prev + |w.header| < w.at
  }

  lemma StepBehind(find: Lookup, w: Walk, s: string)
    requires w.Inside() && Behind(w) && ScanUnit(s).consumed < |s|
    ensures var u := ScanUnit(s); var t := s[..u.consumed];
      Spanned(u, t) && Behind(Step(find, w, t, u))
  {
    FirstSpanned(s);
    HeaderTerminated(s);
  }

  /** An undefined header that continues a path with one colon spoils it exactly when it stands too near. */
  lemma OneColonSpoils(find: Lookup, w: Walk, t: string, u: Unit)
    requires w.Inside() && Behind(w) && !w.spoilt && Spanned(u, t) && Undefined(find, w.header, t, u)
    requires var i := Inherited(w.header, Text(t, u.header));
      i > 0 && forall j | 0 <= j < |w.header| && j != i - 1 :: w.header[j] != ':'
    ensures var i := Inherited(w.header, Text(t, u.header));
      Step(find, w, t, u).spoilt <==> w.at + u.header.ptr - i < w.prev + i
  {
    var i := Inherited(w.header, Text(t, u.header));
    PathIsLastColon(w.header, |w.header|);
    OneColon(w.header, i, w.at + u.header.ptr - i - w.prev);
  }

  predicate AllFound(es: seq<Event>) {
    forall e | e in es :: !e.UndefinedHeader?
  }

  lemma FoundHere(find: Lookup, header: string, t: string, u: Unit, more: seq<Event>)
    requires Spanned(u, t) && AllFound(PureHandle(find, header, t, u).1 + more)
    ensures !Undefined(find, header, t, u) && AllFound(more)
  {
    var es := PureHandle(find, header, t, u).1;
    assert forall e | e in es || e in more :: e in es + more;
    assert es != [] ==> es[0] in es;
  }

  /** A line without undefined headers has none that could harm. */
  lemma {:induction false} FoundKeeps(find: Lookup, w: Walk, s: string)
    requires w.Inside() && !w.spoilt && AllFound(PureParse(find, w.header, s))
    ensures KeepsDistance(find, w, s) && KeepsTexts(find, w.header, s)
    decreases |s|
  {
    var u := ScanUnit(s);
    var t, r := s[..u.consumed], s[u.consumed..];
    KeepsDistanceIs(find, w, s, t, u, r);
    KeepsTextsIs(find, w.header, s, t, u, r);
    EventsAndRest(find, START, w.header, s, t, u, r);
    var (h, es) := PureHandle(find, w.header, t, u);
    if r != "" {
      FoundHere(find, w.header, t, u, PureParse(find, h, r));
      FoundKeeps(find, Step(find, w, t, u), r);
    } else {
      assert es + [] == es;
      FoundHere(find, w.header, t, u, []);
    }
  }

  /** On a line whose headers are all found, parsing in place does what parsing a copy does. */
  lemma ParseLineRefines(find: Lookup, line: string)
    requires AllFound(PureParse(find, "", line))
    ensures ParseLine(find, line) == PureParse(find, "", line)
  {
    FoundKeeps(find, BEGIN, line);
    DistanceKeepsPaths(find, BEGIN, line);
    LineExact(find, line);
  }
}
