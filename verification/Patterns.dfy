/** Command patterns such as `[:MEASure]:VOLTage:DC?`, and the headers they stand for. */
module Patterns {
  import opened Base

  /** A keyword of a pattern, in brackets when it is optional. */
  datatype Elem = Elem(kw: string, opt: bool)

  datatype Pattern = Pattern(leadColon: bool, els: seq<Elem>, query: bool)

  predicate IsLower(c: char) {
    'a' <= c <= 'z'
  }

  /** `tolower` of the C locale. */
  function ToLower(c: char): char {
    if 'A' <= c <= 'Z' then (c as int + 32) as char else c
  }

  predicate IsNumbered(kw: string) {
    kw != "" && kw[|kw| - 1] == '#'
  }

  /** The keyword without its `#`. */
  function Stem(kw: string): string {
    if IsNumbered(kw) then kw[..|kw| - 1] else kw
  }

  /** `patternSeparatorShortPos`: where the first lower-case letter is. */
  function ShortPos(kw: string): (k: nat)
    ensures k <= |kw|
  {
    if kw == "" || kw[0] == NUL || IsLower(kw[0]) then 0 else 1 + ShortPos(kw[1..])
  }

  /** The short form of a keyword is everything before the first of the letters a to z. */
  lemma {:induction false} ShortFormEnds(kw: string)
    requires NUL !in kw
    ensures forall i | 0 <= i < ShortPos(kw) :: !('a' <= kw[i] <= 'z')
    ensures ShortPos(kw) < |kw| ==> 'a' <= kw[ShortPos(kw)] <= 'z'
  {
    if kw != "" && !IsLower(kw[0]) {
      ShortFormEnds(kw[1..]);
      assert forall i | 0 < i < ShortPos(kw) :: kw[i] == kw[1..][i - 1];
    }
  }

  predicate SameIgnoringCase(a: string, b: string) {
    |a| == |b| && forall i | 0 <= i < |a| :: ToLower(a[i]) == ToLower(b[i])
  }

  /** Two characters are the same, or the two cases of one of the 26 letters. */
  predicate SameLetter(a: char, b: char) {
    || a == b
    || ('A' <= a <= 'Z' && b as int - a as int == 32)
    || ('A' <= b <= 'Z' && a as int - b as int == 32)
  }

  /** Texts match exactly when they differ in nothing but the case of letters. */
  lemma CaseExact(a: string, b: string)
    ensures SameIgnoringCase(a, b) <==> |a| == |b| && forall i | 0 <= i < |a| :: SameLetter(a[i], b[i])
  {
    forall i | 0 <= i < |a| && i < |b| ensures ToLower(a[i]) == ToLower(b[i]) <==> SameLetter(a[i], b[i]) {
    }
  }

  /** The word is the form, in any case, and behind it digits if the keyword is numbered and otherwise nothing. */
  predicate SpellsForm(form: string, numbered: bool, w: string) {
    && |form| <= |w| && SameIgnoringCase(form, w[..|form|])
    && (if numbered then forall i | |form| <= i < |w| :: IsDigit(w[i]) else |w| == |form|)
  }

  /** The word is a spelling of the keyword: its long or its short form. */
  predicate Spells(kw: string, w: string) {
    || SpellsForm(Stem(kw), IsNumbered(kw), w)
    || SpellsForm(Stem(kw)[..ShortPos(Stem(kw))], IsNumbered(kw), w)
  }

  /** Changing the case of letters in a word does not change the keywords it spells. */
  lemma SpellsAnyCase(kw: string, w: string, w': string)
    requires |w| == |w'| && forall i | 0 <= i < |w| :: SameLetter(w[i], w'[i])
    ensures Spells(kw, w) <==> Spells(kw, w')
  {
    assert forall i | 0 <= i < |w| :: ToLower(w[i]) == ToLower(w'[i]) && (IsDigit(w[i]) <==> IsDigit(w'[i]));
  }

  /** The separators of a command are `:?`, those of a pattern `?:[]`. */
  predicate IsSeparator(c: char, inCommand: bool) {
    c == ':' || c == '?' || (!inCommand && (c == '[' || c == ']'))
  }

  /** A keyword has a stem that does not begin with a lower-case letter, and no separator inside. */
  predicate WellFormedKeyword(kw: string) {
    && Stem(kw) != "" && !IsLower(Stem(kw)[0])
    && NUL !in kw && forall c | c in kw :: !IsSeparator(c, false)
  }

  predicate WellFormed(p: Pattern) {
    p.els != [] && forall e | e in p.els :: WellFormedKeyword(e.kw)
  }

  function RenderTail(els: seq<Elem>): string {
    if els == [] then ""
    else (if els[0].opt then "[:" + els[0].kw + "]" else ":" + els[0].kw) + RenderTail(els[1..])
  }

  /** The pattern from the keyword of its first element on. */
  function RenderFrom(els: seq<Elem>): string
    requires els != []
  {
    els[0].kw + (if els[0].opt then "]" else "") + RenderTail(els[1..])
  }

  /** The text of a pattern. */
  function Render(p: Pattern): string
    requires p.els != []
  {
    (if p.els[0].opt then "[" else "") + (if p.leadColon then ":" else "") + RenderFrom(p.els)
    + (if p.query then "?" else "")
  }

  predicate AllOptional(els: seq<Elem>) {
    forall e | e in els :: e.opt
  }

  /** The declarative meaning: the words spell the keywords in order, any optional keywords left out. */
  predicate Accepts(els: seq<Elem>, ws: seq<string>)
  {
    if els == [] then ws == []
    else
      || (ws != [] && Spells(els[0].kw, ws[0]) && Accepts(els[1..], ws[1..]))
      || (els[0].opt && Accepts(els[1..], ws))
  }

  function Join(ws: seq<string>): string
    requires ws != []
  {
    if |ws| == 1 then ws[0] else ws[0] + ":" + Join(ws[1..])
  }

  /** The header made of the words, with or without a leading colon. */
  function Header(ws: seq<string>, colon: bool, query: bool): string
    requires ws != []
  {
    (if colon then ":" else "") + Join(ws) + (if query then "?" else "")
  }

  /** The headers a pattern stands for; a common command such as `*IDN?` takes no leading colon. */
  ghost predicate InLanguage(p: Pattern, cmd: string) {
    exists ws: seq<string>, colon: bool ::
      && ws != [] && Accepts(p.els, ws)
      && (colon ==> ws[0] != "" && ws[0][0] != '*')
      && cmd == Header(ws, colon, p.query)
  }

  /** No optional keyword shares a spelling with the first mandatory keyword behind it. */
  ghost predicate Unshadowed(els: seq<Elem>) {
    forall i, j | 0 <= i < j < |els| && els[i].opt && !els[j].opt && AllOptional(els[i..j]) ::
      forall w :: !(Spells(els[i].kw, w) && Spells(els[j].kw, w))
  }
}
