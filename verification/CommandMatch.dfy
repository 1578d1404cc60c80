/** The matcher of `utils.c`: `matchCommand` and the comparisons it rests on. */
module CommandMatch {
  import opened Base
  import opened Patterns
  import opened PatternLanguage

  /** `strncasecmp` on two texts of one length, as the test for zero. */
  predicate StrNCaseEq(a: string, b: string)
    requires |a| == |b|
  {
    if a == "" then true
    else if ToLower(a[0]) != ToLower(b[0]) then false
    else ToLower(a[0]) == NUL || StrNCaseEq(a[1..], b[1..])
  }

  predicate CompareStr(a: string, b: string) {
    |a| == |b| && StrNCaseEq(a, b)
  }

  /** `compareStrAndNum` without a place for the number. */
  predicate CompareStrAndNum(a: string, b: string) {
    && |a| <= |b| && StrNCaseEq(a, b[..|a|])
    && forall i | |a| <= i < |b| :: IsDigit(b[i])
  }

  predicate MatchPattern(pattern: string, str: string) {
    if pattern != "" && pattern[|pattern| - 1] == '#' then
      var stem := pattern[..|pattern| - 1];
      CompareStrAndNum(stem, str) || CompareStrAndNum(stem[..ShortPos(stem)], str)
    else
      CompareStr(pattern, str) || CompareStr(pattern[..ShortPos(pattern)], str)
  }

  lemma {:induction false} CaseEqIs(a: string, b: string)
    requires |a| == |b| && NUL !in a
    ensures StrNCaseEq(a, b) <==> SameIgnoringCase(a, b)
  {
    if a != "" {
      CaseEqIs(a[1..], b[1..]);
      assert forall i | 0 <= i < |a| - 1 :: a[1..][i] == a[i + 1] && b[1..][i] == b[i + 1];
      if SameIgnoringCase(a, b) {
        assert ToLower(a[0]) == ToLower(b[0]);
      }
      if SameIgnoringCase(a[1..], b[1..]) && ToLower(a[0]) == ToLower(b[0]) {
        forall i | 0 <= i < |a|
          ensures ToLower(a[i]) == ToLower(b[i])
        {
          if i > 0 {
            assert ToLower(a[1..][i - 1]) == ToLower(b[1..][i - 1]);
          }
        }
      }
    }
  }

  /** The comparison functions accept the spellings of a keyword. */
  lemma MatchPatternSpells(kw: string, w: string)
    requires WellFormedKeyword(kw)
    ensures MatchPattern(kw, w) <==> Spells(kw, w)
  {
    var stem := Stem(kw);
    FormMatches(stem, IsNumbered(kw), w);
    FormMatches(stem[..ShortPos(stem)], IsNumbered(kw), w);
  }

  lemma FormMatches(form: string, numbered: bool, w: string)
    requires NUL !in form
    ensures SpellsForm(form, numbered, w) <==> if numbered then CompareStrAndNum(form, w) else CompareStr(form, w)
  {
    if |form| <= |w| {
      CaseEqIs(form, w[..|form|]);
      assert |form| == |w| ==> w[..|form|] == w;
    }
  }

  /** `strnpbrk` as a position: the first character of the set, or the length. */
  function SeparatorPos(s: string, inCommand: bool): (k: nat)
    ensures k <= |s|
  {
    if s == "" || IsSeparator(s[0], inCommand) then 0 else 1 + SeparatorPos(s[1..], inCommand)
  }

  lemma {:induction false} SeparatorFirst(s: string, inCommand: bool)
    ensures var k := SeparatorPos(s, inCommand);
      (forall i | 0 <= i < k :: !IsSeparator(s[i], inCommand)) && (k < |s| ==> IsSeparator(s[k], inCommand))
  {
    if s != "" && !IsSeparator(s[0], inCommand) {
      SeparatorFirst(s[1..], inCommand);
    }
  }

  lemma {:induction false} SeparatorBehind(kw: string, t: string)
    requires (forall c | c in kw :: !IsSeparator(c, false)) && (t != "" ==> IsSeparator(t[0], false))
    ensures SeparatorPos(kw + t, false) == |kw|
  {
    if kw == "" {
      assert kw + t == t;
    } else {
      assert (kw + t)[1..] == kw[1..] + t;
      SeparatorBehind(kw[1..], t);
    }
  }

  /** What stands in a pattern behind the keyword of its first element. */
  function Behind(es: seq<Elem>): (t: string)
    requires es != []
    ensures RenderFrom(es) == es[0].kw + t
  {
    (if es[0].opt then "]" else "") + RenderTail(es[1..])
  }

  /** How the text behind a keyword begins. */
  lemma BehindBegins(es: seq<Elem>)
    requires es != []
    ensures var t := Behind(es);
      && (|es| == 1 ==> t == if es[0].opt then "]" else "")
      && (|es| > 1 ==> t == (if es[0].opt then "]" else "") + (if es[1].opt then "[:" else ":") + RenderFrom(es[1..]))
  {
    if |es| > 1 {
      var t := es[1..];
      assert RenderTail(t) == (if t[0].opt then "[:" else ":") + RenderFrom(t);
    }
  }

  lemma KeywordAhead(es: seq<Elem>)
    requires es != [] && WellFormedKeyword(es[0].kw)
    ensures SeparatorPos(RenderFrom(es), false) == |es[0].kw|
  {
    BehindBegins(es);
    SeparatorBehind(es[0].kw, Behind(es));
  }

  /** The first word of a header, up to its separator. */
  lemma FirstWord(s: string)
    ensures var k := SeparatorPos(s, true);
      && (k == |s| ==> Split(s) == [s] && s[..k] == s)
      && (k < |s| && s[k] == ':' ==> Split(s) == [s[..k]] + Split(s[k + 1..]))
      && (k < |s| && s[k] != ':' ==> s[k] == '?')
  {
    var k := SeparatorPos(s, true);
    SeparatorFirst(s, true);
    if k == |s| {
      assert s[..k] == s;
      SplitWord(s, "");
    } else if s[k] == ':' {
      WordAndRest(s, k);
    }
  }

  lemma WordAndRest(s: string, k: nat)
    requires k < |s| && s[k] == ':' && forall i | 0 <= i < k :: s[i] != ':'
    ensures Split(s) == [s[..k]] + Split(s[k + 1..])
  {
    assert s == s[..k] + ":" + s[k + 1..];
    SplitWord(s[..k], s[k + 1..]);
  }

  lemma {:induction false} JoinNoQuestion(ws: seq<string>)
    requires ws != [] && CleanWords(ws)
    ensures '?' !in Join(ws)
  {
    assert ws[0] in ws;
    if |ws| > 1 {
      assert forall w | w in ws[1..] :: w in ws;
      JoinNoQuestion(ws[1..]);
    }
  }

  /** A query mark inside a header is never matched. */
  lemma QuestionFails(es: seq<Elem>, s: string)
    requires (forall e | e in es :: WellFormedKeyword(e.kw)) && '?' in s
    ensures !Greedy(es, Split(s))
  {
    if Greedy(es, Split(s)) {
      GreedySound(es, Split(s));
      AcceptedClean(es, Split(s));
      JoinNoQuestion(Split(s));
      JoinSplit(s);
    }
  }

  /** Memory past the end of a C string reads as its NUL. */
  function At(s: string, i: int): char {
    if 0 <= i < |s| then s[i] else NUL
  }

  /** What joins one keyword to the next: a bracket to close, one to open, and the colon. */
  function Joint(es: seq<Elem>): string
    requires |es| > 1
  {
    if es[0].opt then (if es[1].opt then "][:" else "]:") else if es[1].opt then "[:" else ":"
  }

  /** The text behind a keyword leads over its joint to the next keyword. */
  lemma NextKeyword(es: seq<Elem>)
    requires es != [] && forall e | e in es :: WellFormedKeyword(e.kw)
    ensures |es| == 1 ==> Behind(es) == if es[0].opt then "]" else ""
    ensures |es| > 1 ==> Behind(es) == Joint(es) + RenderFrom(es[1..]) && RenderFrom(es[1..]) != ""
    ensures |es| > 1 ==> !IsSeparator(RenderFrom(es[1..])[0], false)
    ensures forall e | e in es[1..] :: WellFormedKeyword(e.kw)
  {
    BehindBegins(es);
    if |es| > 1 {
      assert es[1] in es;
      KeywordBegins(es[1..]);
    }
  }

  lemma KeywordBegins(es: seq<Elem>)
    requires es != [] && WellFormedKeyword(es[0].kw)
    ensures RenderFrom(es) != "" && !IsSeparator(RenderFrom(es)[0], false)
  {
    var kw := es[0].kw;
    assert kw != "" && kw[0] in kw;
    assert RenderFrom(es)[0] == kw[0];
  }

  /** Every turn of the loop of `matchCommand` over the rest `t` of a pattern finds a separator. */
  predicate Skippable(t: string, brackets: int)
    decreases |t|
  {
    t == "" || (SeparatorPos(t, false) < |t| && var (t', b, stop) := SkipStep(t, brackets); stop || Skippable(t', b))
  }

  /**
   That loop, when the command is complete, with the bracket count: the text it stops at. It has no exit of its own for
   a text without a separator.
   */
  function SkipRest(t: string, brackets: int): string
    requires Skippable(t, brackets)
    decreases |t|
  {
    if t == "" then t
    else
      var (t', b, stop) := SkipStep(t, brackets);
      if stop then t' else SkipRest(t', b)
  }

  /** One turn of that loop: the text behind the separator, the new bracket count, and whether the loop ends. */
  function SkipStep(t: string, brackets: int): (n: (string, int, bool))
    requires SeparatorPos(t, false) < |t|
    ensures |n.0| < |t|
  {
    var c, t' := t[SeparatorPos(t, false)], t[SeparatorPos(t, false) + 1..];
    var b := brackets + (if c == '[' then 1 else if c == ']' then -1 else 0);
    (t', b, b == 0 && !(t' != "" && t'[0] == '['))
  }

  /** Skipping the rest finds its separators and stops at `goal`. */
  predicate SkipsTo(t: string, brackets: int, goal: string)
    decreases |t|
  {
    if t == "" then goal == ""
    else SeparatorPos(t, false) < |t| && Goes(SkipStep(t, brackets), t, goal)
  }

  /** One turn has led on from `t`. */
  predicate Goes(n: (string, int, bool), t: string, goal: string)
    requires |n.0| < |t|
    decreases |t|, 0
  {
    if n.2 then goal == n.0 else SkipsTo(n.0, n.1, goal)
  }

  lemma {:induction false} SkipsToIs(t: string, brackets: int, goal: string)
    requires SkipsTo(t, brackets, goal)
    ensures Skippable(t, brackets) && SkipRest(t, brackets) == goal
    decreases |t|
  {
    if t != "" {
      var (t', b, stop) := SkipStep(t, brackets);
      if !stop {
        SkipsToIs(t', b, goal);
      }
    }
  }

  /** One turn over the text `kw`, a separator, and the rest. */
  lemma SkipTurnOver(t: string, kw: string, c: char, rest: string, brackets: int, b: int, goal: string)
    requires (forall x | x in kw :: !IsSeparator(x, false)) && IsSeparator(c, false) && t == kw + [c] + rest
    requires b == brackets + (if c == '[' then 1 else if c == ']' then -1 else 0)
    requires if b == 0 && !(rest != "" && rest[0] == '[') then goal == rest else SkipsTo(rest, b, goal)
    ensures SkipsTo(t, brackets, goal)
  {
    StepOver(t, kw, c, rest, brackets);
  }

  lemma StepOver(t: string, kw: string, c: char, rest: string, brackets: int)
    requires (forall x | x in kw :: !IsSeparator(x, false)) && IsSeparator(c, false) && t == kw + [c] + rest
    ensures SeparatorPos(t, false) < |t|
    ensures var b := brackets + (if c == '[' then 1 else if c == ']' then -1 else 0);
      SkipStep(t, brackets) == (rest, b, b == 0 && !(rest != "" && rest[0] == '['))
  {
    assert t == kw + ([c] + rest);
    SeparatorBehind(kw, [c] + rest);
    assert t[|kw| + 1..] == rest;
  }

  /** Skipping an optional element with the bracket count at zero arrives at what follows it. */
  lemma SkipOptional(t: string, kw: string, rest: string, goal: string)
    requires (forall x | x in kw :: !IsSeparator(x, false)) && t == "[:" + kw + "]" + rest
    requires if rest != "" && rest[0] == '[' then SkipsTo(rest, 0, goal) else goal == rest
    ensures SkipsTo(t, 0, goal)
  {
    var t2 := kw + [']'] + rest;
    var t1 := "" + [':'] + t2;
    assert t == "" + ['['] + t1;
    SkipTurnOver(t2, kw, ']', rest, 1, 0, goal);
    SkipTurnOver(t1, "", ':', t2, 1, 1, goal);
    SkipTurnOver(t, "", '[', t1, 0, 1, goal);
  }

  lemma TailBegins(es: seq<Elem>)
    requires es != []
    ensures RenderTail(es) != "" && (RenderTail(es)[0] == '[' <==> es[0].opt)
  {
  }

  lemma AllOptionalStep(es: seq<Elem>)
    requires es != []
    ensures AllOptional(es) <==> es[0].opt && AllOptional(es[1..])
  {
    assert es == [es[0]] + es[1..];
    assert es[0] in es;
  }

  /** The text of elements can be skipped, to a place that is its end exactly when all of them are optional. */
  lemma {:induction false} SkipTail(es: seq<Elem>) returns (goal: string)
    requires forall e | e in es :: WellFormedKeyword(e.kw)
    ensures SkipsTo(RenderTail(es), 0, goal) && (goal == "" <==> AllOptional(es))
    decreases |es|, 0
  {
    goal := "";
    if es != [] {
      var kw, rest := es[0].kw, RenderTail(es[1..]);
      assert es[0] in es && kw[0] in kw;
      AllOptionalStep(es);
      goal := SkipRestOf(es[1..]);
      if es[0].opt {
        SkipOptional(RenderTail(es), kw, rest, goal);
      } else {
        goal := kw + rest;
        SkipTurnOver(RenderTail(es), "", ':', goal, 0, 0, goal);
      }
    }
  }

  /** The same for the elements behind an optional one, which are skipped only if they begin with a bracket. */
  lemma {:induction false} SkipRestOf(es: seq<Elem>) returns (goal: string)
    requires forall e | e in es :: WellFormedKeyword(e.kw)
    ensures var rest := RenderTail(es); if rest != "" && rest[0] == '[' then SkipsTo(rest, 0, goal) else goal == rest
    ensures goal == "" <==> AllOptional(es)
    decreases |es|, 1
  {
    goal := RenderTail(es);
    if es != [] {
      TailBegins(es);
      AllOptionalStep(es);
      if es[0].opt {
        goal := SkipTail(es);
      }
    }
  }

  /** Skipping what is behind a matched keyword: it always finds its separators. */
  lemma SkipBehind(es: seq<Elem>)
    requires es != [] && forall e | e in es :: WellFormedKeyword(e.kw)
    ensures Skippable(Behind(es), if es[0].opt then 1 else 0)
    ensures Behind(es) != "" ==>
      (SkipRest(Behind(es), if es[0].opt then 1 else 0) == "" <==> AllOptional(es[1..]))
  {
    var rest := RenderTail(es[1..]);
    assert forall e | e in es[1..] :: e in es;
    var goal;
    if es[0].opt {
      goal := SkipRestOf(es[1..]);
      assert Behind(es) == "" + [']'] + rest;
      SkipTurnOver(Behind(es), "", ']', rest, 1, 0, goal);
      SkipsToIs(Behind(es), 1, goal);
    } else {
      goal := SkipTail(es[1..]);
      assert Behind(es) == rest;
      SkipsToIs(rest, 0, goal);
    }
  }

  lemma SkipRestStep(t: string, brackets: int)
    requires t != "" && Skippable(t, brackets)
    ensures SeparatorPos(t, false) < |t|
    ensures var (t', b, stop) := SkipStep(t, brackets);
      (!stop ==> Skippable(t', b)) && SkipRest(t, brackets) == if stop then t' else SkipRest(t', b)
  {
  }

  /** The inner loop of `matchCommand`, for a command that is complete: what is left of the pattern. */
  method SkipOptionalRest(pattern: string, brackets0: int) returns (pat: string)
    requires Skippable(pattern, brackets0)
    ensures pat == SkipRest(pattern, brackets0)
  {
    var brackets := brackets0;
    pat := pattern;
    var more := true;
    while more && pat != ""
      invariant more ==> Skippable(pat, brackets) && SkipRest(pat, brackets) == SkipRest(pattern, brackets0)
      invariant !more ==> pat == SkipRest(pattern, brackets0)
      decreases more, |pat|
    {
      SkipRestStep(pat, brackets);
      pat, brackets, more := SkipTurn(pat, brackets, SeparatorPos(pat, false));
    }
  }

  /** The body of that loop, at a separator. */
  method SkipTurn(pat0: string, brackets0: int, sep: nat) returns (pat: string, brackets: int, more: bool)
    requires sep == SeparatorPos(pat0, false) < |pat0|
    ensures (pat, brackets, !more) == SkipStep(pat0, brackets0)
  {
    brackets := brackets0;
    match pat0[sep] {
      case '[' => brackets := brackets + 1;
      case ']' => brackets := brackets - 1;
      case _ =>
    }
    pat := pat0[sep + 1..];
    more := true;
    if brackets == 0 {
      more := pat != "" && pat[0] == '[';
    }
  }

  /**
   What the loop decides after a keyword took a word: `s` is what is left of the command. `None` is a decision to go on
   behind the joint.
   */
  lemma AfterWord(es: seq<Elem>, s: string)
    requires es != [] && forall e | e in es :: WellFormedKeyword(e.kw)
    requires var k := SeparatorPos(s, true); Spells(es[0].kw, s[..k])
    ensures var rest := s[SeparatorPos(s, true)..];
      && (rest == "" ==> (Greedy(es, Split(s)) <==> AllOptional(es[1..])))
      && (rest != "" && rest[0] == ':' && |es| > 1 ==> (Greedy(es, Split(s)) <==> Greedy(es[1..], Split(rest[1..]))))
      && (rest != "" && (rest[0] != ':' || |es| == 1) ==> !Greedy(es, Split(s)))
  {
    FirstWord(s);
    var k := SeparatorPos(s, true);
    if k < |s| {
      assert s[k..][1..] == s[k + 1..];
      if s[k] == ':' {
        assert Split(s)[1..] == Split(s[k + 1..]);
      } else {
        assert '?' in s;
        QuestionFails(es, s);
      }
    }
  }

  /** What the loop decides after a keyword refused a word. */
  lemma AfterRefusal(es: seq<Elem>, s: string)
    requires es != [] && forall e | e in es :: WellFormedKeyword(e.kw)
    requires var k := SeparatorPos(s, true); !Spells(es[0].kw, s[..k])
    ensures Greedy(es, Split(s)) <==> es[0].opt && |es| > 1 && Greedy(es[1..], Split(s))
  {
    FirstWord(s);
    var k := SeparatorPos(s, true);
    if k < |s| && s[k] != ':' {
      assert '?' in s;
      QuestionFails(es, s);
      assert forall e | e in es[1..] :: e in es;
      QuestionFails(es[1..], s);
    }
  }

  lemma KeywordSplits(es: seq<Elem>)
    requires es != [] && WellFormedKeyword(es[0].kw)
    ensures var k := SeparatorPos(RenderFrom(es), false);
      && RenderFrom(es)[..k] == es[0].kw
      && RenderFrom(es)[k..] == Behind(es)
  {
    KeywordAhead(es);
  }

  /** The main loop of `matchCommand`, from the first keyword on. */
  method MatchLoop(pattern: string, cmd: string, brackets0: int, ghost all: seq<Elem>) returns (result: bool)
    requires all != [] && (forall e | e in all :: WellFormedKeyword(e.kw)) && pattern == RenderFrom(all)
    requires brackets0 == if all[0].opt then 1 else 0
    ensures result <==> Greedy(all, Split(cmd))
  {
    var pat, c, brackets := pattern, cmd, brackets0;
    ghost var es := all;
    while true
      invariant es != [] && (forall e | e in es :: WellFormedKeyword(e.kw)) && pat == RenderFrom(es)
      invariant brackets == if es[0].opt then 1 else 0
      invariant Greedy(all, Split(cmd)) <==> Greedy(es, Split(c))
      decreases |es|
    {
      var sep, cmdSep := SeparatorPos(pat, false), SeparatorPos(c, true);
      KeywordSplits(es);
      MatchPatternSpells(es[0].kw, c[..cmdSep]);
      var done;
      if MatchPattern(pat[..sep], c[..cmdSep]) {
        done, result, pat, c, brackets := WordTaken(pat[sep..], c, cmdSep, brackets, es);
      } else {
        done, pat, brackets := WordRefused(pat[sep..], c, cmdSep, brackets, es);
        result := false;
      }
      if done {
        return;
      }
      assert forall e | e in es[1..] :: e in es;
      es := es[1..];
    }
  }

  /** A keyword took the word in front of `cmdSep`: decide, or pass the joint. */
  method WordTaken(pat0: string, c0: string, cmdSep: nat, brackets0: int, ghost es: seq<Elem>)
      returns (done: bool, result: bool, pat: string, c: string, brackets: int)
    requires es != [] && (forall e | e in es :: WellFormedKeyword(e.kw)) && pat0 == Behind(es)
    requires brackets0 == if es[0].opt then 1 else 0
    requires cmdSep == SeparatorPos(c0, true) && Spells(es[0].kw, c0[..cmdSep])
    ensures done ==> (result <==> Greedy(es, Split(c0)))
    ensures !done ==> |es| > 1 && pat == RenderFrom(es[1..]) && brackets == (if es[1].opt then 1 else 0)
    ensures !done ==> (Greedy(es, Split(c0)) <==> Greedy(es[1..], Split(c)))
  {
    AfterWord(es, c0);
    NextKeyword(es);
    done, result, pat, c, brackets := true, false, pat0, c0[cmdSep..], brackets0;
    if pat == "" && c == "" {
      result := true;
    } else if pat == "" {
      result := false;
    } else if c == "" {
      SkipBehind(es);
      pat := SkipOptionalRest(pat, brackets);
      result := pat == "";
    } else {
      var taken := PassJoint(pat, c, es);
      if taken > 0 {
        brackets := brackets + (if taken == 2 && pat[0] == '[' then 1 else if taken == 2 then -1 else 0);
        pat := pat[taken..];
        c := c[1..];
        done := false;
      }
    }
  }

  /** A keyword refused the word: go on behind it when it is optional. */
  method WordRefused(pat0: string, c: string, cmdSep: nat, brackets0: int, ghost es: seq<Elem>)
      returns (done: bool, pat: string, brackets: int)
    requires es != [] && (forall e | e in es :: WellFormedKeyword(e.kw)) && pat0 == Behind(es)
    requires brackets0 == if es[0].opt then 1 else 0
    requires cmdSep == SeparatorPos(c, true) && !Spells(es[0].kw, c[..cmdSep])
    ensures done ==> !Greedy(es, Split(c))
    ensures !done ==> |es| > 1 && pat == RenderFrom(es[1..]) && brackets == (if es[1].opt then 1 else 0)
    ensures !done ==> (Greedy(es, Split(c)) <==> Greedy(es[1..], Split(c)))
  {
    AfterRefusal(es, c);
    NextKeyword(es);
    done, pat, brackets := false, pat0, brackets0;
    if At(pat, 0) == ']' && At(pat, 1) == ':' {
      pat := pat[2..];
      brackets := brackets - 1;
    } else if |pat| > 2 && pat[0] == ']' && pat[1] == '[' && pat[2] == ':' {
      pat := pat[3..];
    } else {
      done := true;
    }
  }

  /**
   The comparison of the separators of pattern and command: how many pattern characters are passed, or 0 for no match.
   */
  method PassJoint(pat: string, c: string, ghost es: seq<Elem>) returns (taken: nat)
    requires es != [] && (forall e | e in es :: WellFormedKeyword(e.kw)) && pat == Behind(es)
    requires pat != "" && c != ""
    ensures taken > 0 <==> c[0] == ':' && |es| > 1
    ensures taken > 0 ==> taken == |Joint(es)| <= |pat| && pat[taken..] == RenderFrom(es[1..])
  {
    NextKeyword(es);
    if pat[0] == c[0] && pat[0] == ':' {
      taken := 1;
    } else if |pat| > 1 && pat[1] == c[0] && pat[0] == '[' && pat[1] == ':' {
      taken := 2;
    } else if |pat| > 1 && pat[1] == c[0] && pat[0] == ']' && pat[1] == ':' {
      taken := 2;
    } else if |pat| > 2 && pat[2] == c[0] && pat[0] == ']' && pat[1] == '[' && pat[2] == ':' {
      taken := 3;
    } else {
      taken := 0;
    }
  }

  /** The ends of a pattern's text, which `matchCommand` looks at first. */
  lemma RenderEnds(p: Pattern)
    requires WellFormed(p)
    ensures Render(p) != "" && (Render(p)[|Render(p)| - 1] == '?' <==> p.query)
    ensures p.query ==> Render(p)[..|Render(p)| - 1] == Render(p.(query := false))
  {
    var t := Render(p.(query := false));
    assert p.els[0] in p.els;
    LastOfFrom(p.els);
    assert Render(p) == t + (if p.query then "?" else "");
    assert t[|t| - 1] == RenderFrom(p.els)[|RenderFrom(p.els)| - 1];
  }

  lemma {:induction false} LastOfFrom(es: seq<Elem>)
    requires es != [] && forall e | e in es :: WellFormedKeyword(e.kw)
    ensures RenderFrom(es) != "" && RenderFrom(es)[|RenderFrom(es)| - 1] != '?'
  {
    NextKeyword(es);
    assert es[0] in es && es[0].kw != "";
    if |es| > 1 {
      LastOfFrom(es[1..]);
    } else {
      assert es[0].kw[|es[0].kw| - 1] in es[0].kw;
    }
  }

  /** Behind the optional bracket and colon a pattern begins with its first keyword. */
  lemma RenderBegins(p: Pattern)
    requires WellFormed(p) && !p.query
    ensures var t := Render(p); var t1 := if At(t, 0) == '[' then t[1..] else t;
      && (At(t, 0) == '[' <==> p.els[0].opt)
      && (At(t1, 0) == ':' <==> p.leadColon)
      && (if p.leadColon then t1[1..] else t1) == RenderFrom(p.els)
  {
    assert p.els[0] in p.els && p.els[0].kw != "" && p.els[0].kw[0] in p.els[0].kw;
    var t, body := Render(p), (if p.leadColon then ":" else "") + RenderFrom(p.els);
    assert t == (if p.els[0].opt then "[" else "") + body;
    assert p.els[0].opt ==> t[1..] == body;
    assert p.leadColon ==> body[1..] == RenderFrom(p.els);
  }

  /**
   `matchCommand` without the extraction of numbers. The command is what `strnlen` leaves of the text passed; a caller
   never passes an empty one. Matched are the headers `Match` describes.
   */
  method MatchCommand(pattern: string, cmd: string, ghost p: Pattern) returns (result: bool)
    requires WellFormed(p) && pattern == Render(p) && cmd != ""
    ensures result <==> Match(p, cmd)
    ensures result ==> InLanguage(p, cmd)
    ensures Unshadowed(p.els) && InLanguage(p, cmd) && NUL !in cmd ==> result
  {
    RenderEnds(p);
    var pat, c := pattern, cmd;
    if pat[|pat| - 1] == '?' {
      if c[|c| - 1] == '?' {
        c := c[..|c| - 1];
        pat := pat[..|pat| - 1];
      } else {
        MatchExactHere(p, cmd);
        return false;
      }
    }
    var brackets;
    pat, brackets := SkipPatternStart(pat, p);
    var start := SkipCommandStart(c);
    MatchExactHere(p, cmd);
    if start.None? {
      return false;
    }
    result := MatchLoop(pat, start.value, brackets, p.els);
  }

  /** Passes the first bracket and colon of a pattern. */
  method SkipPatternStart(pattern: string, ghost p: Pattern) returns (pat: string, brackets: int)
    requires WellFormed(p) && pattern == Render(p.(query := false))
    ensures pat == RenderFrom(p.els) && brackets == if p.els[0].opt then 1 else 0
  {
    RenderBegins(p.(query := false));
    pat, brackets := pattern, 0;
    if At(pat, 0) == '[' {
      pat := pat[1..];
      brackets := brackets + 1;
    }
    if At(pat, 0) == ':' {
      pat := pat[1..];
    }
  }

  /** Passes the first colon of a command; a colon before a star is refused. */
  method SkipCommandStart(cmd: string) returns (c: Option<string>)
    ensures c == if |cmd| >= 2 && cmd[0] == ':' then (if cmd[1] == '*' then None else Some(cmd[1..])) else Some(cmd)
  {
    c := Some(cmd);
    if At(cmd, 0) == ':' && |cmd| >= 2 {
      if cmd[1] != '*' {
        c := Some(cmd[1..]);
      } else {
        c := None;
      }
    }
  }

  lemma MatchExactHere(p: Pattern, cmd: string)
    requires WellFormed(p) && cmd != ""
    ensures Match(p, cmd) ==> InLanguage(p, cmd)
    ensures Unshadowed(p.els) && NUL !in cmd ==> (Match(p, cmd) <==> InLanguage(p, cmd))
  {
    if Match(p, cmd) {
      MatchSound(p, cmd);
    }
    MatchExact(p);
  }
}
