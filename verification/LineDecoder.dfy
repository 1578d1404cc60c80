/** The line reader of `user_uart_loop`: a backslash takes the next backslash or newline character literally. */
module LineDecoder {
  import opened Base

  const BACKSLASH := '\\'

  /** The bytes of a line, where the stream goes on, the flag that stays behind, and whether the line is complete. */
  datatype Line = Line(text: string, pos: nat, modifier: bool, done: bool)

  /** Reads a line of at most `n` bytes, of which `text` has been read. */
  function ReadLine(stream: string, p: nat, modifier: bool, n: nat, text: string): Line
    requires p <= |stream|
    decreases |stream| - p
  {
    if |text| >= n then Line(text, p, modifier, true)
    else if p == |stream| then Line(text, p, modifier, false)
    else
      var c := stream[p];
      if c == BACKSLASH && !modifier then ReadLine(stream, p + 1, true, n, text)
      else if (c == '\n' || c == '\r') && !modifier then Line(text, p + 1, modifier, true)
      else ReadLine(stream, p + 1, false, n, text + [c])
  }

  class LineReader {
    var modifier: bool

    constructor ()
      ensures !modifier
    {
      modifier := false;
    }

    /** The inner loop of `user_uart_loop`, on a stream that may run dry. */
    method ReadInto(stream: string, p: nat, buf: array<char>) returns (i: nat, pos: nat, done: bool)
      requires p <= |stream| && buf.Length > 0
      modifies this, buf
      ensures i < buf.Length
      ensures Line(buf[..i], pos, modifier, done) == ReadLine(stream, p, old(modifier), buf.Length - 1, "")
      ensures done && i < buf.Length - 1 ==> buf[i] == NUL
    {
      ghost var goal := ReadLine(stream, p, modifier, buf.Length - 1, "");
      i, pos, done := 0, p, true;
      assert buf[..0] == "";
      while i < buf.Length - 1
        invariant i < buf.Length && pos <= |stream| && done
        invariant goal == ReadLine(stream, pos, modifier, buf.Length - 1, buf[..i])
        decreases |stream| - pos
      {
        if pos == |stream| {
          done := false;
          return;
        }
        ghost var text := buf[..i];
        var c := stream[pos];
        pos := pos + 1;
        if c == BACKSLASH {
          if !modifier {
            modifier := true;
          } else {
            buf[i] := c;
            i := i + 1;
            modifier := false;
            assert buf[..i] == text + [c];
          }
        } else if c == '\n' || c == '\r' {
          if modifier {
            buf[i] := c;
            i := i + 1;
            modifier := false;
            assert buf[..i] == text + [c];
          } else {
            buf[i] := NUL;
            assert buf[..i] == text;
            return;
          }
        } else {
          buf[i] := c;
          i := i + 1;
          modifier := false;
          assert buf[..i] == text + [c];
        }
      }
    }
  }

  predicate NeedsEscape(c: char) {
    c == BACKSLASH || c == '\n' || c == '\r'
  }

  /** A line with a backslash in front of every byte that would not be taken literally. */
  function Escaped(s: string): string {
    if s == "" then "" else EscapedChar(s[0]) + Escaped(s[1..])
  }

  function EscapedChar(c: char): string {
    if NeedsEscape(c) then [BACKSLASH, c] else [c]
  }

  /** The stream goes on with `t` at `p`. */
  predicate HasAt(stream: string, p: nat, t: string) {
    p + |t| <= |stream| && stream[p..p + |t|] == t
  }

  /** One byte in its escaped form adds that byte. */
  lemma ReadEscaped(stream: string, p: nat, c: char, n: nat, text: string)
    requires |text| < n && HasAt(stream, p, EscapedChar(c))
    ensures ReadLine(stream, p, false, n, text) == ReadLine(stream, p + |EscapedChar(c)|, false, n, text + [c])
  {
    var e := EscapedChar(c);
    assert stream[p] == stream[p..p + |e|][0] == e[0];
    if NeedsEscape(c) {
      assert stream[p + 1] == stream[p..p + |e|][1] == c;
      assert ReadLine(stream, p, false, n, text) == ReadLine(stream, p + 1, true, n, text);
    }
  }

  lemma HasParts(stream: string, p: nat, a: string, b: string)
    requires HasAt(stream, p, a + b)
    ensures HasAt(stream, p, a) && HasAt(stream, p + |a|, b)
  {
    var u := stream[p..p + |a + b|];
    assert u[..|a|] == a && u[|a|..] == b;
    assert stream[p..p + |a|] == u[..|a|];
    assert stream[p + |a|..p + |a| + |b|] == u[|a|..];
  }

  lemma EscapedSplit(stream: string, p: nat, s: string)
    requires s != "" && HasAt(stream, p, Escaped(s))
    ensures HasAt(stream, p, EscapedChar(s[0])) && HasAt(stream, p + |EscapedChar(s[0])|, Escaped(s[1..]))
  {
    var a, b := EscapedChar(s[0]), Escaped(s[1..]);
    assert Escaped(s) == a + b;
    HasParts(stream, p, a, b);
  }

  /** The decoder undoes the escaping, whatever the bytes: up to the limit they arrive unchanged. */
  lemma {:induction false} DecodeEscaped(stream: string, p: nat, s: string, n: nat, text: string)
    requires |text| + |s| <= n && HasAt(stream, p, Escaped(s))
    ensures ReadLine(stream, p, false, n, text) == ReadLine(stream, p + |Escaped(s)|, false, n, text + s)
    decreases |s|
  {
    if s == "" {
      assert text + s == text;
    } else {
      EscapedSplit(stream, p, s);
      ReadEscaped(stream, p, s[0], n, text);
      DecodeEscaped(stream, p + |EscapedChar(s[0])|, s[1..], n, text + [s[0]]);
      assert text + [s[0]] + s[1..] == text + s;
    }
  }

  /** A line of fewer than `n` bytes and its newline are read as exactly that line, and no flag stays behind. */
  lemma LineRoundTrip(s: string, newline: char, rest: string, n: nat)
    requires |s| < n && (newline == '\n' || newline == '\r')
    ensures ReadLine(Escaped(s) + [newline] + rest, 0, false, n, "") == Line(s, |Escaped(s)| + 1, false, true)
  {
    var stream := Escaped(s) + [newline] + rest;
    DecodeEscaped(stream, 0, s, n, "");
    assert "" + s == s;
    assert stream[|Escaped(s)|] == newline;
  }

  /** A byte as it may be typed: with a backslash in front of it, which some bytes need. */
  datatype Key = Key(escaped: bool, byte: char) {
    predicate Valid() {
      byte == '\\' || byte == '\n' || byte == '\r' ==> escaped
    }

    function Text(): string {
      if escaped then "\\" + [byte] else [byte]
    }
  }

  predicate AllKeys(ks: seq<Key>) {
    forall i | 0 <= i < |ks| :: ks[i].Valid()
  }

  function KeysText(ks: seq<Key>): string {
    if ks == [] then "" else ks[0].Text() + KeysText(ks[1..])
  }

  function Typed(ks: seq<Key>): string {
    seq(|ks|, i requires 0 <= i < |ks| => ks[i].byte)
  }

  lemma ReadKey(stream: string, p: nat, k: Key, n: nat, text: string)
    requires |text| < n && k.Valid() && HasAt(stream, p, k.Text())
    ensures ReadLine(stream, p, false, n, text) == ReadLine(stream, p + |k.Text()|, false, n, text + [k.byte])
  {
    var e := k.Text();
    assert stream[p] == stream[p..p + |e|][0] == e[0];
    if k.escaped {
      assert stream[p + 1] == stream[p..p + |e|][1] == k.byte;
      assert ReadLine(stream, p, false, n, text) == ReadLine(stream, p + 1, true, n, text);
    }
  }

  lemma {:induction false} ReadKeys(stream: string, p: nat, ks: seq<Key>, n: nat, text: string)
    requires |text| + |ks| <= n && AllKeys(ks) && HasAt(stream, p, KeysText(ks))
    ensures ReadLine(stream, p, false, n, text) ==
      ReadLine(stream, p + |KeysText(ks)|, false, n, text + Typed(ks))
    decreases |ks|
  {
    if ks == [] {
      assert text + Typed(ks) == text;
    } else {
      HasParts(stream, p, ks[0].Text(), KeysText(ks[1..]));
      ReadKey(stream, p, ks[0], n, text);
      ReadKeys(stream, p + |ks[0].Text()|, ks[1..], n, text + [ks[0].byte]);
      assert text + [ks[0].byte] + Typed(ks[1..]) == text + Typed(ks);
    }
  }

  /** A line with any backslashes that it needs, and any more, is read without them. */
  lemma LineOfKeys(ks: seq<Key>, newline: char, rest: string, n: nat)
    requires AllKeys(ks) && |ks| < n && (newline == '\n' || newline == '\r')
    ensures ReadLine(KeysText(ks) + [newline] + rest, 0, false, n, "") ==
      Line(Typed(ks), |KeysText(ks)| + 1, false, true)
  {
    var stream := KeysText(ks) + [newline] + rest;
    ReadKeys(stream, 0, ks, n, "");
    assert "" + Typed(ks) == Typed(ks);
    assert stream[|KeysText(ks)|] == newline;
  }

  /** A line that fills the buffer ends there, and reading goes on with what follows, newline or not. */
  lemma FullLine(ks: seq<Key>, rest: string, n: nat)
    requires AllKeys(ks) && |ks| == n
    ensures ReadLine(KeysText(ks) + rest, 0, false, n, "") == Line(Typed(ks), |KeysText(ks)|, false, true)
  {
    ReadKeys(KeysText(ks) + rest, 0, ks, n, "");
    assert "" + Typed(ks) == Typed(ks);
  }
}
