/** Texts put in a row, without and with a separator between them. */
module Joining {
  /** Texts put one behind the other. */
  function Flat(ts: seq<string>): string {
    if ts == [] then "" else ts[0] + Flat(ts[1..])
  }

  function Row(ts: seq<string>, sep: char): string
    decreases |ts|, 0
  {
    if ts == [] then "" else ts[0] + Continued(ts[1..], sep)
  }

  /** What follows a text in such a row. */
  function Continued(ts: seq<string>, sep: char): (t: string)
    ensures t == "" || t[0] == sep
    decreases |ts|, 1
  {
    if ts == [] then "" else [sep] + Row(ts, sep)
  }

  lemma {:induction false} JoinSnoc(ts: seq<string>, t: string, sep: char)
    ensures Row(ts + [t], sep) == Row(ts, sep) + (if ts == [] then "" else [sep]) + t
  {
    if ts == [] {
      assert [t][1..] == [] && [] + [t] == [t];
    } else {
      assert (ts + [t])[1..] == ts[1..] + [t] && (ts + [t])[0] == ts[0];
      JoinSnoc(ts[1..], t, sep);
    }
  }

  /** The text in front of number `i` of the row. */
  function Before(ts: seq<string>, i: nat, sep: char): string
    requires i <= |ts|
  {
    Row(ts[..i], sep) + if i > 0 then [sep] else ""
  }

  lemma PrefixSnoc(ts: seq<string>, i: nat, sep: char)
    requires i < |ts|
    ensures Row(ts[..i + 1], sep) == Before(ts, i, sep) + ts[i]
  {
    assert ts[..i + 1] == ts[..i] + [ts[i]];
    JoinSnoc(ts[..i], ts[i], sep);
    assert i == 0 ==> ts[..i] == [];
  }

  lemma ContinuedStep(ts: seq<string>, i: nat, sep: char)
    requires i < |ts|
    ensures Continued(ts[i..], sep) == [sep] + ts[i] + Continued(ts[i + 1..], sep)
  {
    assert ts[i..][1..] == ts[i + 1..] && ts[i..][0] == ts[i];
  }

  lemma Regroup(a: string, b: string, c: string, sep: char)
    ensures (a + [sep] + b) + c == a + ([sep] + b + c)
  {
  }

  /** The row up to a place, and what follows it. */
  lemma {:induction false} JoinSplit(ts: seq<string>, i: nat, sep: char)
    requires 0 < i <= |ts|
    ensures Row(ts, sep) == Row(ts[..i], sep) + Continued(ts[i..], sep)
    decreases |ts| - i
  {
    if i < |ts| {
      JoinSplit(ts, i + 1, sep);
      PrefixSnoc(ts, i, sep);
      ContinuedStep(ts, i, sep);
      Regroup(Row(ts[..i], sep), ts[i], Continued(ts[i + 1..], sep), sep);
    } else {
      assert ts[..i] == ts && ts[i..] == [];
    }
  }

  /** Any text of the row, with the texts in front of it and behind it. */
  lemma Around(ts: seq<string>, i: nat, sep: char) returns (before: string, more: string)
    requires i < |ts|
    ensures Row(ts, sep) == before + ts[i] + more && before == Before(ts, i, sep) && more == Continued(ts[i + 1..], sep)
    ensures |Row(ts[..i + 1], sep)| == |before| + |ts[i]|
    ensures i == 0 ==> before == ""
    ensures i > 0 ==> |before| == |Row(ts[..i], sep)| + 1 && before[|before| - 1] == sep
    ensures if i + 1 < |ts| then more != "" && more[0] == sep else more == ""
  {
    before, more := Before(ts, i, sep), Continued(ts[i + 1..], sep);
    JoinSplit(ts, i + 1, sep);
    PrefixSnoc(ts, i, sep);
    assert i == 0 ==> ts[..i] == [];
  }
}
