/** When the greedy matcher decides exactly the language of a pattern. */
module PatternLanguage {
  import opened Base
  import opened Patterns

  /**
   What the loop of `matchCommand` decides: each word is given to the first keyword that takes it, without going back.
   */
  predicate Greedy(els: seq<Elem>, ws: seq<string>) {
    if ws == [] then AllOptional(els)
    else if els == [] then false
    else if Spells(els[0].kw, ws[0]) then Greedy(els[1..], ws[1..])
    else els[0].opt && Greedy(els[1..], ws)
  }

  /** The words between the colons. */
  function Split(s: string): (ws: seq<string>)
    ensures ws != []
  {
    if s == "" then [""]
    else if s[0] == ':' then [""] + Split(s[1..])
    else
      var rest := Split(s[1..]);
      [[s[0]] + rest[0]] + rest[1..]
  }

  /** The header without its query mark and leading colon, if it may have them. */
  function Body(p: Pattern, cmd: string): Option<string>
    requires cmd != ""
  {
    if p.query && cmd[|cmd| - 1] != '?' then None
    else
      var c := if p.query then cmd[..|cmd| - 1] else cmd;
      if |c| >= 2 && c[0] == ':' then (if c[1] == '*' then None else Some(c[1..])) else Some(c)
  }

  /** What `matchCommand` decides for a well-formed pattern. */
  predicate Match(p: Pattern, cmd: string)
    requires cmd != ""
  {
    Body(p, cmd).Some? && Greedy(p.els, Split(Body(p, cmd).value))
  }

  lemma {:induction false} AcceptsNothing(els: seq<Elem>)
    ensures Accepts(els, []) <==> AllOptional(els)
  {
    if els != [] {
      AcceptsNothing(els[1..]);
      assert els == [els[0]] + els[1..];
    }
  }

  /** Whatever the greedy matcher accepts is in the language. */
  lemma {:induction false} GreedySound(els: seq<Elem>, ws: seq<string>)
    requires Greedy(els, ws)
    ensures Accepts(els, ws)
  {
    if ws == [] {
      AcceptsNothing(els);
    } else if Spells(els[0].kw, ws[0]) {
      GreedySound(els[1..], ws[1..]);
    } else {
      GreedySound(els[1..], ws);
    }
  }

  lemma {:induction false} SkipOptional(els: seq<Elem>, j: nat, ws: seq<string>)
    requires j <= |els| && AllOptional(els[..j]) && Accepts(els[j..], ws)
    ensures Accepts(els, ws)
  {
    if j > 0 {
      assert els[..j][0] == els[0];
      assert forall e | e in els[1..][..j - 1] :: e in els[..j];
      assert els[1..][j - 1..] == els[j..];
      SkipOptional(els[1..], j - 1, ws);
    }
  }

  /** The first word of an accepted list is taken by some element behind optional ones only. */
  lemma {:induction false} FirstUse(els: seq<Elem>, ws: seq<string>) returns (j: nat)
    requires ws != [] && Accepts(els, ws)
    ensures j < |els| && AllOptional(els[..j]) && Spells(els[j].kw, ws[0]) && Accepts(els[j + 1..], ws[1..])
  {
    if Spells(els[0].kw, ws[0]) && Accepts(els[1..], ws[1..]) {
      return 0;
    }
    j := FirstUse(els[1..], ws);
    LaterUse(els, j);
    j := j + 1;
  }

  lemma LaterUse(els: seq<Elem>, j: nat)
    requires els != [] && els[0].opt && j < |els| - 1 && AllOptional(els[1..][..j])
    ensures AllOptional(els[..j + 1]) && els[1..][j] == els[j + 1] && els[1..][j + 1..] == els[j + 2..]
  {
    assert els[..j + 1] == [els[0]] + els[1..][..j];
  }

  lemma UnshadowedTail(els: seq<Elem>)
    requires els != [] && Unshadowed(els)
    ensures Unshadowed(els[1..])
  {
    var t := els[1..];
    forall i, j | 0 <= i < j < |t| && t[i].opt && !t[j].opt && AllOptional(t[i..j])
      ensures forall w :: !(Spells(t[i].kw, w) && Spells(t[j].kw, w))
    {
      assert t[i..j] == els[i + 1..j + 1];
    }
  }

  lemma NextIsOptional(els: seq<Elem>, j: nat, w: string)
    requires Unshadowed(els) && 0 < j < |els| && AllOptional(els[0..j]) && els[0].opt
    requires Spells(els[0].kw, w) && Spells(els[j].kw, w)
    ensures els[j].opt
  {
  }

  /** Without shadowing the greedy matcher accepts the whole language. */
  lemma {:induction false} GreedyComplete(els: seq<Elem>, ws: seq<string>)
    requires Unshadowed(els) && Accepts(els, ws)
    ensures Greedy(els, ws)
  {
    if ws == [] {
      AcceptsNothing(els);
    } else {
      UnshadowedTail(els);
      if !Spells(els[0].kw, ws[0]) {
        GreedyComplete(els[1..], ws);
      } else {
        FirstTakes(els, ws);
        GreedyComplete(els[1..], ws[1..]);
      }
    }
  }

  /** A word that the first keyword takes can be given to it. */
  lemma FirstTakes(els: seq<Elem>, ws: seq<string>)
    requires els != [] && ws != [] && Unshadowed(els) && Accepts(els, ws) && Spells(els[0].kw, ws[0])
    ensures Accepts(els[1..], ws[1..])
  {
    var t := els[1..];
    if !Accepts(t, ws[1..]) {
      var j := FirstUse(t, ws);
      LaterUse(els, j);
      assert els[0..j + 1] == els[..j + 1];
      NextIsOptional(els, j + 1, ws[0]);
      OneMoreOptional(t, j);
      SkipOptional(t, j + 1, ws[1..]);
    }
  }

  lemma OneMoreOptional(t: seq<Elem>, j: nat)
    requires j < |t| && AllOptional(t[..j]) && t[j].opt
    ensures AllOptional(t[..j + 1])
  {
    assert t[..j + 1] == t[..j] + [t[j]];
  }

  function Mandatory(els: seq<Elem>): nat {
    if els == [] then 0 else (if els[0].opt then 0 else 1) + Mandatory(els[1..])
  }

  /** The greedy matcher needs a word for every mandatory keyword. */
  lemma {:induction false} GreedyCounts(els: seq<Elem>, ws: seq<string>)
    requires Greedy(els, ws)
    ensures |ws| >= Mandatory(els)
  {
    if els != [] {
      if ws == [] {
        assert els[0] in els && forall e | e in els[1..] :: e in els;
        GreedyCounts(els[1..], []);
      } else if Spells(els[0].kw, ws[0]) {
        GreedyCounts(els[1..], ws[1..]);
      } else {
        GreedyCounts(els[1..], ws);
      }
    }
  }

  lemma StemSpells(kw: string)
    ensures Spells(kw, Stem(kw))
  {
    assert Stem(kw)[..|Stem(kw)|] == Stem(kw);
  }

  /** One word for each mandatory keyword: its long form, except that keyword `j` gets `w`. */
  function PlainWords(els: seq<Elem>, j: int, w: string): (ws: seq<string>)
    ensures |ws| == Mandatory(els)
  {
    if els == [] then []
    else (if els[0].opt then [] else [if j == 0 then w else Stem(els[0].kw)]) + PlainWords(els[1..], j - 1, w)
  }

  lemma {:induction false} PlainAccepted(els: seq<Elem>, j: int, w: string)
    requires 0 <= j < |els| ==> Spells(els[j].kw, w)
    ensures Accepts(els, PlainWords(els, j, w))
  {
    if els != [] {
      var t := PlainWords(els[1..], j - 1, w);
      PlainAccepted(els[1..], j - 1, w);
      if !els[0].opt {
        var first := if j == 0 then w else Stem(els[0].kw);
        StemSpells(els[0].kw);
        assert Spells(els[0].kw, first);
        assert PlainWords(els, j, w) == [first] + t;
      } else {
        assert PlainWords(els, j, w) == t;
      }
    }
  }

  lemma {:induction false} PlainHead(els: seq<Elem>, j: nat, w: string)
    requires j < |els| && !els[j].opt && AllOptional(els[..j])
    ensures PlainWords(els, j, w) != [] && PlainWords(els, j, w)[0] == w
  {
    if j > 0 {
      assert els[..j][0] == els[0];
      assert forall e | e in els[1..][..j - 1] :: e in els[..j];
      PlainHead(els[1..], j - 1, w);
    }
  }

  /** An optional keyword that takes the word meant for the mandatory one behind it makes the greedy matcher fail. */
  lemma {:induction false} ShadowFails(els: seq<Elem>, i: nat, j: nat, w: string)
    requires i < j < |els| && els[i].opt && !els[j].opt && AllOptional(els[i..j])
    requires Spells(els[i].kw, w) && Spells(els[j].kw, w)
    ensures !Greedy(els, PlainWords(els, j, w))
  {
    var ws, t := PlainWords(els, j, w), els[1..];
    if i == 0 {
      assert els[..j] == els[0..j];
      PlainHead(els, j, w);
      TakenIsLost(els, ws);
    } else {
      assert t[i - 1..j - 1] == els[i..j];
      ShadowFails(t, i - 1, j - 1, w);
      NotAllOptional(els, j);
      if els[0].opt {
        assert ws == PlainWords(t, j - 1, w);
        if ws != [] && Spells(els[0].kw, ws[0]) {
          TakenIsLost(els, ws);
        }
      } else {
        StemSpells(els[0].kw);
        assert ws == [Stem(els[0].kw)] + PlainWords(t, j - 1, w);
      }
    }
  }

  lemma NotAllOptional(els: seq<Elem>, j: nat)
    requires j < |els| && !els[j].opt
    ensures !AllOptional(els)
  {
    assert els[j] in els;
  }

  /** When there are no more words than mandatory keywords, an optional keyword that takes one leaves too few. */
  lemma TakenIsLost(els: seq<Elem>, ws: seq<string>)
    requires els != [] && els[0].opt && ws != [] && |ws| <= Mandatory(els)
    requires Spells(els[0].kw, ws[0])
    ensures !Greedy(els, ws)
  {
    if Greedy(els[1..], ws[1..]) {
      GreedyCounts(els[1..], ws[1..]);
    }
  }

  /** A spelling is not empty and holds neither a separator nor a NUL. */
  lemma SpellingClean(kw: string, w: string)
    requires WellFormedKeyword(kw) && Spells(kw, w)
    ensures w != "" && ':' !in w && '?' !in w && NUL !in w
  {
    var stem, short := Stem(kw), Stem(kw)[..ShortPos(Stem(kw))];
    var form := if SpellsForm(stem, IsNumbered(kw), w) then stem else short;
    assert forall c | c in form :: c in kw;
    forall i | 0 <= i < |w|
      ensures w[i] != ':' && w[i] != '?' && w[i] != NUL
    {
      if i < |form| {
        assert form[i] in kw && ToLower(form[i]) == ToLower(w[..|form|][i]);
      } else {
        assert IsDigit(w[i]);
      }
    }
  }

  ghost predicate CleanWords(ws: seq<string>) {
    forall w | w in ws :: w != "" && ':' !in w && '?' !in w && NUL !in w
  }

  lemma {:induction false} AcceptedClean(els: seq<Elem>, ws: seq<string>)
    requires Accepts(els, ws) && forall e | e in els :: WellFormedKeyword(e.kw)
    ensures CleanWords(ws)
  {
    if els != [] {
      assert els[0] in els && forall e | e in els[1..] :: e in els;
      if els[0].opt && Accepts(els[1..], ws) {
        AcceptedClean(els[1..], ws);
      } else {
        AcceptedClean(els[1..], ws[1..]);
        SpellingClean(els[0].kw, ws[0]);
        assert ws == [ws[0]] + ws[1..];
      }
    }
  }

  lemma {:induction false} JoinSplit(s: string)
    ensures Join(Split(s)) == s
  {
    if s != "" {
      JoinSplit(s[1..]);
      var rest := Split(s[1..]);
      if s[0] == ':' {
        assert Split(s)[1..] == rest;
      } else {
        assert Split(s)[1..] == rest[1..];
      }
    }
  }

  lemma {:induction false} SplitWord(w: string, rest: string)
    requires ':' !in w
    ensures Split(w + ":" + rest) == [w] + Split(rest)
    ensures Split(w) == [w]
    decreases |w|
  {
    var s := w + ":" + rest;
    if w == "" {
      assert s[1..] == rest;
    } else {
      assert s[1..] == w[1..] + ":" + rest;
      SplitWord(w[1..], rest);
      assert [w[0]] + w[1..] == w;
    }
  }

  lemma {:induction false} SplitJoin(ws: seq<string>)
    requires ws != [] && CleanWords(ws)
    ensures Split(Join(ws)) == ws
    ensures ws[0] != "" && Join(ws) != "" && Join(ws)[0] == ws[0][0]
  {
    assert ws[0] in ws;
    if |ws| == 1 {
      SplitWord(ws[0], "");
    } else {
      assert forall w | w in ws[1..] :: w in ws;
      SplitJoin(ws[1..]);
      SplitWord(ws[0], Join(ws[1..]));
    }
  }

  /** Being in the language, said of the words between the colons of the header. */
  lemma LanguageByWords(p: Pattern, cmd: string)
    requires WellFormed(p) && cmd != ""
    ensures InLanguage(p, cmd) <==> Body(p, cmd).Some? && Accepts(p.els, Split(Body(p, cmd).value))
  {
    if InLanguage(p, cmd) {
      var ws: seq<string>, colon: bool :| ws != [] && Accepts(p.els, ws)
        && (colon ==> ws[0] != "" && ws[0][0] != '*') && cmd == Header(ws, colon, p.query);
      AcceptedClean(p.els, ws);
      SplitJoin(ws);
      assert ws[0] in ws;
      BodyOf(p, colon, Join(ws));
    }
    if Body(p, cmd).Some? && Accepts(p.els, Split(Body(p, cmd).value)) {
      InLanguageByWords(p, cmd);
    }
  }

  lemma InLanguageByWords(p: Pattern, cmd: string)
    requires WellFormed(p) && cmd != ""
    requires Body(p, cmd).Some? && Accepts(p.els, Split(Body(p, cmd).value))
    ensures InLanguage(p, cmd)
  {
    var b := Body(p, cmd).value;
    var ws := Split(b);
    AcceptedClean(p.els, ws);
    JoinSplit(b);
    SplitJoin(ws);
    var colon := HeaderOfBody(p, cmd, b, ws);
    assert ws != [] && Accepts(p.els, ws) && (colon ==> ws[0] != "" && ws[0][0] != '*') &&
      cmd == Header(ws, colon, p.query);
  }

  /** A header is made of the words of its body, with or without a leading colon. */
  lemma HeaderOfBody(p: Pattern, cmd: string, b: string, ws: seq<string>) returns (colon: bool)
    requires cmd != "" && Body(p, cmd) == Some(b) && ws != [] && Join(ws) == b
    ensures cmd == Header(ws, colon, p.query)
    ensures colon ==> b != "" && b[0] != '*'
  {
    var c := if p.query then cmd[..|cmd| - 1] else cmd;
    colon := |c| >= 2 && c[0] == ':';
    assert c == (if colon then ":" else "") + b;
    assert cmd == c + if p.query then "?" else "";
  }

  /** A header the matcher accepts is always one the pattern stands for. */
  lemma MatchSound(p: Pattern, cmd: string)
    requires WellFormed(p) && cmd != "" && Match(p, cmd)
    ensures InLanguage(p, cmd)
  {
    GreedySound(p.els, Split(Body(p, cmd).value));
    LanguageByWords(p, cmd);
  }

  /**
   The matcher decides the language of the pattern for every header exactly when no optional keyword shares a spelling
   with the first mandatory keyword behind it. Two optional keywords may share one.
   */
  lemma MatchExact(p: Pattern)
    requires WellFormed(p)
    ensures Unshadowed(p.els) <==> forall cmd | cmd != "" && NUL !in cmd :: Match(p, cmd) <==> InLanguage(p, cmd)
  {
    if Unshadowed(p.els) {
      forall cmd | cmd != "" && NUL !in cmd
        ensures Match(p, cmd) <==> InLanguage(p, cmd)
      {
        LanguageByWords(p, cmd);
        if InLanguage(p, cmd) {
          GreedyComplete(p.els, Split(Body(p, cmd).value));
        }
        if Match(p, cmd) {
          MatchSound(p, cmd);
        }
      }
    } else {
      var cmd := ShadowedHeader(p);
      assert Match(p, cmd) != InLanguage(p, cmd);
    }
  }

  /** A header of a shadowed pattern that the matcher misses. */
  lemma ShadowedHeader(p: Pattern) returns (cmd: string)
    requires WellFormed(p) && !Unshadowed(p.els)
    ensures cmd != "" && NUL !in cmd && InLanguage(p, cmd) && !Match(p, cmd)
  {
    var els := p.els;
    var i, j :| 0 <= i < j < |els| && els[i].opt && !els[j].opt && AllOptional(els[i..j])
      && exists w :: Spells(els[i].kw, w) && Spells(els[j].kw, w);
    var w :| Spells(els[i].kw, w) && Spells(els[j].kw, w);
    var ws := PlainWords(els, j, w);
    ShadowFails(els, i, j, w);
    PlainAccepted(els, j, w);
    AcceptedClean(els, ws);
    if ws == [] {
      assert els[j] in els;
      AcceptsNothing(els);
    }
    JoinClean(ws);
    cmd := Header(ws, false, p.query);
    BodyOfHeader(ws, p);
  }

  lemma BodyOfHeader(ws: seq<string>, p: Pattern)
    requires ws != [] && CleanWords(ws)
    ensures var cmd := Header(ws, false, p.query);
      cmd != "" && Body(p, cmd) == Some(Join(ws)) && Split(Join(ws)) == ws
  {
    SplitJoin(ws);
    assert ws[0] in ws;
    BodyOf(p, false, Join(ws));
  }

  /** Stripping a header gives back what was wrapped. */
  lemma BodyOf(p: Pattern, colon: bool, b: string)
    requires b != "" && b[0] != ':' && (colon ==> b[0] != '*')
    ensures var cmd := (if colon then ":" else "") + b + (if p.query then "?" else "");
      cmd != "" && Body(p, cmd) == Some(b)
  {
    var c := (if colon then ":" else "") + b;
    var cmd := c + (if p.query then "?" else "");
    assert (if p.query then cmd[..|cmd| - 1] else cmd) == c;
    assert (if colon then c[1..] else c) == b;
  }

  lemma {:induction false} JoinClean(ws: seq<string>)
    requires ws != [] && CleanWords(ws)
    ensures NUL !in Join(ws)
  {
    assert ws[0] in ws;
    if |ws| > 1 {
      assert forall w | w in ws[1..] :: w in ws;
      JoinClean(ws[1..]);
    }
  }
}
