/**
 The error-text heap of `utils.c` (`scpiheap_*`): a circular byte allocator that keeps no
 block headers. A cell is free exactly when it holds zero.
 */
module InfoHeap {
  import opened Base

  /** The bytes a list of strings occupies, each closed by its NUL. */
  function Packed(live: seq<string>): string {
    if live == [] then [] else live[0] + [NUL] + Packed(live[1..])
  }

  /** What may be stored: strings that are not empty and hold no NUL. */
  predicate Storable(live: seq<string>) {
    forall s | s in live :: s != [] && NUL !in s
  }

  lemma {:induction false} PackedAppend(a: seq<string>, b: seq<string>)
    ensures Packed(a + b) == Packed(a) + Packed(b)
  {
    if a == [] {
      assert a + b == b;
    } else {
      assert (a + b)[1..] == a[1..] + b;
      PackedAppend(a[1..], b);
    }
  }

  /** String `i` sits between what precedes it and what follows it. */
  lemma PackedAt(live: seq<string>, i: nat)
    requires i < |live|
    ensures Packed(live) == Packed(live[..i]) + live[i] + [NUL] + Packed(live[i + 1..])
  {
    assert live == live[..i] + live[i..];
    PackedAppend(live[..i], live[i..]);
    assert live[i..][1..] == live[i + 1..];
  }

  lemma PackedSlice(live: seq<string>, i: nat)
    requires i < |live|
    ensures var o := |Packed(live[..i])|;
      && o + |live[i]| < |Packed(live)|
      && Packed(live)[o..o + |live[i]|] == live[i]
      && Packed(live)[o + |live[i]|] == NUL
  {
    PackedAt(live, i);
  }

  /** Forward distance from `start` to cell `j` in a ring of `n` cells. */
  function Dist(j: int, start: int, n: int): (k: int)
    requires 0 <= j < n && 0 <= start < n
    ensures 0 <= k < n && Wrap(start + k, n) == j
  {
    if j >= start then j - start else j - start + n
  }

  /** The byte found `k` cells after the oldest live byte. */
  function Cell(live: seq<string>, k: nat): char {
    if k < |Packed(live)| then Packed(live)[k] else NUL
  }

  /** Memory `m` holds the live strings one after another from `start` round the ring, and zeros elsewhere. */
  ghost predicate Layout(m: string, start: nat, live: seq<string>) {
    && Storable(live)
    && |Packed(live)| <= |m|
    && (|m| > 0 ==> start < |m|)
    && forall j | 0 <= j < |m| :: m[j] == Cell(live, Dist(j, start, |m|))
  }

  /** Where each live string begins, oldest first. */
  function Addresses(live: seq<string>, start: nat, n: nat): (a: seq<nat>)
    requires live != [] ==> start < n
    requires |Packed(live)| <= n
    ensures |a| == |live| && forall i | 0 <= i < |a| :: a[i] < n
  {
    if live == [] then []
    else [start] + Addresses(live[1..], Wrap(start + |live[0]| + 1, n), n)
  }

  lemma {:induction false} AddressAt(live: seq<string>, start: nat, n: nat, i: nat)
    requires i < |live| && start < n && |Packed(live)| <= n
    ensures |Packed(live[..i])| + |live[i]| < |Packed(live)|
    ensures Addresses(live, start, n)[i] == Wrap(start + |Packed(live[..i])|, n)
  {
    PackedAt(live, i);
    if i > 0 {
      AddressAt(live[1..], Wrap(start + |live[0]| + 1, n), n, i - 1);
      assert live[..i][1..] == live[1..][..i - 1];
    }
  }

  lemma LiveNeedsRoom(live: seq<string>)
    ensures live != [] ==> Packed(live) != []
  {
  }

  /** Writing a string and its NUL into the first free cells makes it the newest live string. */
  lemma LayoutPush(m: string, m': string, start: nat, live: seq<string>, t: string)
    requires Layout(m, start, live)
    requires t != [] && NUL !in t
    requires |m'| == |m| && |Packed(live)| + |t| + 1 <= |m|
    requires forall j | 0 <= j < |m| ::
      m'[j] == (var k := Dist(j, start, |m|) - |Packed(live)|;
                if 0 <= k < |t| then t[k] else if k == |t| then NUL else m[j])
    ensures Layout(m', start, live + [t])
    ensures Addresses(live + [t], start, |m|) == Addresses(live, start, |m|) + [Wrap(start + |Packed(live)|, |m|)]
  {
    PackedAppend(live, [t]);
    assert Packed([t]) == t + [NUL];
    AddressesAppend(live, start, |m|, t);
  }

  lemma {:induction false} AddressesAppend(live: seq<string>, start: nat, n: nat, t: string)
    requires start < n && |Packed(live)| + |t| + 1 <= n
    ensures |Packed(live + [t])| == |Packed(live)| + |t| + 1
    ensures Addresses(live + [t], start, n) == Addresses(live, start, n) + [Wrap(start + |Packed(live)|, n)]
  {
    PackedAppend(live, [t]);
    assert Packed([t]) == t + [NUL];
    if live == [] {
      assert live + [t] == [t];
    } else {
      var next := Wrap(start + |live[0]| + 1, n);
      assert (live + [t])[1..] == live[1..] + [t] && (live + [t])[0] == live[0];
      AddressesAppend(live[1..], next, n, t);
      WrapAgain(start, |live[0]| + 1, |Packed(live[1..])|, n);
      assert Addresses(live + [t], start, n) == [start] + Addresses(live[1..] + [t], next, n);
    }
  }

  lemma WrapAgain(start: nat, a: nat, b: nat, n: nat)
    requires start < n && a + b < n
    ensures Wrap(Wrap(start + a, n) + b, n) == Wrap(start + (a + b), n)
  {
  }

  /** `LayoutPush` for a write described from the write index instead of from the oldest byte. */
  lemma PushWritten(m: string, m': string, start: nat, live: seq<string>, t: string)
    requires Layout(m, start, live)
    requires t != [] && NUL !in t
    requires |m'| == |m| && |Packed(live)| + |t| + 1 <= |m|
    requires var wr := Wrap(start + |Packed(live)|, |m|);
      forall j | 0 <= j < |m| ::
        m'[j] == (var k := Dist(j, wr, |m|);
                  if k < |t| then t[k] else if k == |t| then NUL else m[j])
    ensures Layout(m', start, live + [t])
    ensures |Packed(live + [t])| == |Packed(live)| + |t| + 1
    ensures Addresses(live + [t], start, |m|) == Addresses(live, start, |m|) + [Wrap(start + |Packed(live)|, |m|)]
  {
    var u, n := |Packed(live)|, |m|;
    var wr := Wrap(start + u, n);
    forall j | 0 <= j < n
      ensures m'[j] == (var k := Dist(j, start, n) - u;
                        if 0 <= k < |t| then t[k] else if k == |t| then NUL else m[j])
    {
      var k := Dist(j, wr, n);
      assert Dist(j, start, n) == if k < n - u then k + u else k + u - n;
    }
    LayoutPush(m, m', start, live, t);
    AddressesAppend(live, start, n, t);
  }

  /** Zeroing the oldest string leaves the others where they were. */
  lemma LayoutDropFirst(m: string, m': string, start: nat, live: seq<string>)
    requires Layout(m, start, live) && live != []
    requires |m'| == |m|
    requires forall j | 0 <= j < |m| ::
      m'[j] == if Dist(j, start, |m|) <= |live[0]| then NUL else m[j]
    ensures Layout(m', Wrap(start + |live[0]| + 1, |m|), live[1..])
    ensures Addresses(live[1..], Wrap(start + |live[0]| + 1, |m|), |m|) == Addresses(live, start, |m|)[1..]
  {
    var start' := Wrap(start + |live[0]| + 1, |m|);
    assert forall s | s in live[1..] :: s in live;
    forall j | 0 <= j < |m|
      ensures m'[j] == Cell(live[1..], Dist(j, start', |m|))
    {
      var k := Dist(j, start, |m|);
      assert m[j] == Cell(live, k);
    }
  }

  /** Zeroing the newest string leaves the others where they were. */
  lemma LayoutDropLast(m: string, m': string, start: nat, live: seq<string>)
    requires Layout(m, start, live) && live != []
    requires |m'| == |m|
    requires forall j | 0 <= j < |m| ::
      m'[j] == if |Packed(live[..|live| - 1])| <= Dist(j, start, |m|) < |Packed(live)| then NUL else m[j]
    ensures Layout(m', start, live[..|live| - 1])
    ensures Addresses(live[..|live| - 1], start, |m|) == Addresses(live, start, |m|)[..|live| - 1]
  {
    var rest, t := live[..|live| - 1], live[|live| - 1];
    assert live == rest + [t];
    PackedAppend(rest, [t]);
    assert Packed([t]) == t + [NUL];
    AddressesAppend(rest, start, |m|, t);
    assert forall s | s in rest :: s in live;
    forall j | 0 <= j < |m|
      ensures m'[j] == Cell(rest, Dist(j, start, |m|))
    {
      assert m[j] == Cell(live, Dist(j, start, |m|));
    }
  }

  /** Memory `m` holds `t` and then a NUL from cell `a` round the ring. */
  ghost predicate RunAt(m: string, a: nat, t: string) {
    && a < |m| && |t| < |m|
    && (forall k {:trigger t[k]} | 0 <= k < |t| :: m[Wrap(a + k, |m|)] == t[k])
    && m[Wrap(a + |t|, |m|)] == NUL
  }

  /** Reading from the address of string `i` round the ring gives its bytes and then a NUL. */
  lemma LayoutRead(m: string, start: nat, live: seq<string>, i: nat)
    requires Layout(m, start, live) && i < |live|
    ensures |m| > start && |live[i]| < |m| && live[i] != []
    ensures NUL !in live[i] && RunAt(m, Addresses(live, start, |m|)[i], live[i])
  {
    assert live[i] in live;
    var a, o := Addresses(live, start, |m|)[i], |Packed(live[..i])|;
    assert a == Wrap(start + o, |m|) by {
      AddressAt(live, start, |m|, i);
    }
    PackedSlice(live, i);
    LayoutCells(m, start, live);
    ReadRun(m, start, Packed(live), o, live[i]);
  }

  lemma LayoutCells(m: string, start: nat, live: seq<string>)
    requires Layout(m, start, live)
    ensures forall j | 0 <= j < |m| && Dist(j, start, |m|) < |Packed(live)| :: m[j] == Packed(live)[Dist(j, start, |m|)]
  {
    assert forall j | 0 <= j < |m| && Dist(j, start, |m|) < |Packed(live)| :: m[j] == Cell(live, Dist(j, start, |m|));
  }

  /** The text `t` and its NUL found at offset `o` of the bytes laid out from `start`. */
  lemma ReadRun(m: string, start: nat, flat: string, o: nat, t: string)
    requires start < |m| && o + |t| < |flat| <= |m|
    requires forall j | 0 <= j < |m| && Dist(j, start, |m|) < |flat| :: m[j] == flat[Dist(j, start, |m|)]
    requires flat[o..o + |t|] == t && flat[o + |t|] == NUL
    ensures RunAt(m, Wrap(start + o, |m|), t)
  {
    var a, n := Wrap(start + o, |m|), |m|;
    forall k {:trigger t[k]} | 0 <= k < |t|
      ensures m[Wrap(a + k, n)] == t[k]
    {
      assert Dist(Wrap(a + k, n), start, n) == o + k;
      assert flat[o..o + |t|][k] == flat[o + k];
    }
    assert Dist(Wrap(a + |t|, n), start, n) == o + |t|;
  }

  /** The two pieces `scpiheap_get_parts` reports for the text `t` stored at `p`. */
  ghost predicate IsParts(m: string, p: nat, len1: nat, s2: Option<nat>, len2: nat, t: string) {
    && p + len1 <= |m| && len2 <= |m|
    && (s2.Some? <==> p + len1 == |m|)
    && (s2.Some? ==> s2.value == 0)
    && (s2.None? ==> len2 == 0)
    && m[p..p + len1] + m[..len2] == t
  }

  /** The measured parts are the live text whose address is `p`. */
  lemma PartsOfLive(m: string, start: nat, live: seq<string>, i: nat, p: nat, len1: nat, s2: Option<nat>, len2: nat)
    requires Layout(m, start, live) && i < |live|
    requires |m| > start && |Addresses(live, start, |m|)| == |live| && Addresses(live, start, |m|)[i] == p
    requires p + len1 <= |m| && (forall j | p <= j < p + len1 :: m[j] != NUL)
    requires p + len1 < |m| ==> m[p + len1] == NUL
    requires s2 == if p + len1 == |m| then Some(0) else None
    requires len2 <= |m| && (forall j | 0 <= j < len2 :: m[j] != NUL)
    requires if s2.Some? then len2 < |m| ==> m[len2] == NUL else len2 == 0
    ensures IsParts(m, p, len1, s2, len2, live[i])
  {
    LayoutRead(m, start, live, i);
    PartsAreText(m, p, len1, s2, len2, live[i]);
  }

  /**
   Measuring up to the first zero from `p`, and again from cell 0 after running into the end, finds the whole text.
   */
  lemma PartsAreText(m: string, p: nat, len1: nat, s2: Option<nat>, len2: nat, t: string)
    requires RunAt(m, p, t) && t != [] && NUL !in t
    requires p + len1 <= |m| && (forall j | p <= j < p + len1 :: m[j] != NUL)
    requires p + len1 < |m| ==> m[p + len1] == NUL
    requires s2 == if p + len1 == |m| then Some(0) else None
    requires len2 <= |m| && (forall j | 0 <= j < len2 :: m[j] != NUL)
    requires if s2.Some? then len2 < |m| ==> m[len2] == NUL else len2 == 0
    ensures IsParts(m, p, len1, s2, len2, t)
    ensures len1 == Min(|t|, |m| - p) && len2 == |t| - len1
  {
    assert forall j | p <= j < Min(p + |t|, |m|) :: m[j] == t[j - p];
    if p + |t| < |m| {
      assert len1 == |t|;
    } else {
      assert len1 == |m| - p;
      assert forall j | 0 <= j < |t| - len1 :: m[j] == t[j + len1];
      assert len2 == |t| - len1;
    }
  }

  /** What a queue keeps when its newest or its oldest element goes. */
  function Without<T>(q: seq<T>, newest: bool): seq<T>
    requires q != []
  {
    if newest then q[..|q| - 1] else q[1..]
  }

  /** The `k` cells from `p` round the ring are zero and the others are as before. */
  ghost predicate Erased(m: string, m': string, p: nat, k: nat)
    requires |m'| == |m| && p < |m|
  {
    forall j | 0 <= j < |m| :: m'[j] == if Dist(j, p, |m|) < k then NUL else m[j]
  }

  /** Zeroing the oldest or the newest string with its NUL, wherever it lies in the ring. */
  lemma ErasedLayout(m: string, m': string, start: nat, live: seq<string>, newest: bool, t: string, start': nat,
        rest: seq<string>)
    requires Layout(m, start, live) && live != []
    requires t == live[if newest then |live| - 1 else 0] && rest == Without(live, newest)
    requires |m'| == |m| && |t| < |m|
    requires start' == if newest then start else Wrap(start + |t| + 1, |m|)
    requires Erased(m, m', Addresses(live, start, |m|)[if newest then |live| - 1 else 0], |t| + 1)
    ensures |Packed(rest)| + |t| + 1 == |Packed(live)|
    ensures Layout(m', start', rest)
    ensures Addresses(rest, start', |m|) == Without(Addresses(live, start, |m|), newest)
  {
    if newest {
      ErasedNewest(m, m', start, live, |live| - 1);
    } else {
      AddressAt(live, start, |m|, 0);
      LayoutDropFirst(m, m', start, live);
    }
  }

  lemma ErasedNewest(m: string, m': string, start: nat, live: seq<string>, i: nat)
    requires Layout(m, start, live) && live != [] && i == |live| - 1 && |m'| == |m| && |live[i]| < |m|
    requires Erased(m, m', Addresses(live, start, |m|)[i], |live[i]| + 1)
    ensures |Packed(live[..i])| + |live[i]| + 1 == |Packed(live)| && Layout(m', start, live[..i])
    ensures Addresses(live[..i], start, |m|) == Addresses(live, start, |m|)[..i]
  {
    AddressAt(live, start, |m|, i);
    PackedAt(live, i);
    ShiftSpan(start, |Packed(live[..i])|, |live[i]|, |m|);
    LayoutDropLast(m, m', start, live);
  }

  lemma ShiftSpan(start: nat, o: nat, len: nat, n: nat)
    requires start < n && o + len < n
    ensures forall j | 0 <= j < n :: Dist(j, Wrap(start + o, n), n) <= len <==> o <= Dist(j, start, n) <= o + len
  {
  }

  class Heap {
    var wr: nat
    var count: nat
    const data: array<char>
    ghost var live: seq<string>

    /** The cell of the oldest live byte; the free cells run from `wr` up to it. */
    ghost function Start(): (s: nat)
      requires wr <= data.Length && count <= data.Length
      requires data.Length > 0 ==> wr < data.Length
      reads this
      ensures data.Length > 0 ==> s < data.Length
    {
      if data.Length == 0 then 0 else Wrap(wr + count, data.Length)
    }

    ghost predicate Valid()
      reads this, data
    {
      && wr <= data.Length && (data.Length > 0 ==> wr < data.Length)
      && count + |Packed(live)| == data.Length
      && Layout(data[..], Start(), live)
      && (live == [] ==> wr == 0)
    }

    ghost function Pointers(): (a: seq<nat>)
      requires Valid()
      reads this, data
      ensures |a| == |live| && forall i | 0 <= i < |a| :: a[i] < data.Length
    {
      LiveNeedsRoom(live);
      Addresses(live, Start(), data.Length)
    }

    /** No text starts with a free cell. */
    lemma PointersLive()
      requires Valid()
      ensures forall i | 0 <= i < |live| :: data[Pointers()[i]] != NUL
    {
      forall i | 0 <= i < |live|
        ensures data[Pointers()[i]] != NUL
      {
        LayoutRead(data[..], Start(), live, i);
        assert live[i][0] == data[..][Wrap(Pointers()[i] + 0, data.Length)];
      }
    }

    /** `scpiheap_init`. */
    constructor (data: array<char>)
      modifies data
      ensures Valid() && this.data == data && live == [] && count == data.Length
    {
      this.data := data;
      wr, count, live := 0, data.Length, [];
      new;
      forall i | 0 <= i < data.Length {
        data[i] := NUL;
      }
    }

    /** `memcpy` into the heap. */
    method CopyIn(dst: nat, s: string)
      requires dst + |s| <= data.Length
      modifies data
      ensures forall j | 0 <= j < data.Length ::
        data[j] == if dst <= j < dst + |s| then s[j - dst] else old(data[j])
    {
      forall i | 0 <= i < |s| {
        data[dst + i] := s[i];
      }
    }

    /** `memset` to zero. */
    method Clear(from: nat, n: nat)
      requires from + n <= data.Length
      modifies data
      ensures forall j | 0 <= j < data.Length :: data[j] == if from <= j < from + n then NUL else old(data[j])
    {
      forall i | from <= i < from + n {
        data[i] := NUL;
      }
    }

    /**
     `scpiheap_strndup`: copies the text `s`, cut at `n` characters or its NUL, behind the newest string.
     The text is refused when it is empty or does not fit into the free bytes with its NUL.
     `s` stands for the memory the caller points at, which must be readable one byte past the text.
     */
    method StrNDup(s: string, n: nat) returns (p: Option<nat>)
      requires Valid()
      requires NUL in s || n < |s|
      requires n > 0 || s[0] == NUL
      modifies this, data
      ensures Valid()
      ensures var t := s[..StrNLen(s, n)];
        && (p.Some? <==> t != [] && |t| + 1 <= old(count))
        && (p.Some? ==> live == old(live) + [t] && Pointers() == old(Pointers()) + [p.value])
        && (p.None? ==> live == old(live) && Pointers() == old(Pointers()) && count == old(count))
    {
      if data.Length == 0 {
        return None;
      }
      assert count > 0 ==> Dist(wr, Start(), data.Length) == |Packed(live)|;
      if data[wr] != NUL {
        assert count == 0;
        return None;
      }
      if s[0] == NUL {
        return None;
      }
      var len := StrNLen(s, n) + 1;
      if len > count {
        return None;
      }
      assert s[..len][..len - 1] == s[..StrNLen(s, n)];
      var head := Append(s[..len]);
      return Some(head);
    }

    /** Writes a text and its NUL into the first free cells. */
    method Append(s: string) returns (head: nat)
      requires Valid() && 1 < |s| <= count && NUL !in s[..|s| - 1]
      modifies this, data
      ensures Valid()
      ensures live == old(live) + [s[..|s| - 1]] && Pointers() == old(Pointers()) + [head]
    {
      ghost var t, start, m := s[..|s| - 1], Start(), data[..];
      LiveNeedsRoom(live);
      head := wr;
      WriteRound(s);
      PushWritten(m, data[..], start, live, t);
      live := live + [t];
    }

    /** The copy loop of `scpiheap_strndup`: at most two `memcpy`s, then the last byte written is made a NUL. */
    method WriteRound(s: string)
      requires 0 < |s| <= count <= data.Length && wr < data.Length
      modifies this`wr, this`count, data
      ensures count == old(count) - |s| && wr == Wrap(old(wr) + |s|, data.Length)
      ensures forall j | 0 <= j < data.Length ::
        data[j] == (var k := Dist(j, old(wr), data.Length);
                    if k < |s| - 1 then s[k] else if k == |s| - 1 then NUL else old(data[j]))
    {
      var ptrs, len, rem := s, |s|, data.Length - wr;
      if len >= rem {
        CopyIn(wr, ptrs[..rem]);
        len := len - rem;
        ptrs := ptrs[rem..];
        wr := 0;
        count := count - rem;
      }
      CopyIn(wr, ptrs);
      wr := wr + len;
      count := count - len;
      if wr > 0 {
        data[wr - 1] := NUL;
      } else {
        data[data.Length - 1] := NUL;
      }
    }

    /** `strnlen` on heap memory. */
    method Measure(from: nat, n: nat) returns (k: nat)
      requires from + n <= data.Length
      ensures k <= n && forall j | from <= j < from + k :: data[j] != NUL
      ensures k < n ==> data[from + k] == NUL
    {
      k := 0;
      while k < n && data[from + k] != NUL
        invariant k <= n && forall j | from <= j < from + k :: data[j] != NUL
      {
        k := k + 1;
      }
    }

    /**
     `scpiheap_get_parts`: the stored text as one piece, or as two when it runs over the end of the heap.
     Null out-parameters are not modelled.
     */
    method GetParts(p: Option<nat>) returns (ok: bool, len1: nat, s2: Option<nat>, len2: nat)
      requires Valid()
      requires p.Some? ==> p.value < data.Length
      ensures ok <==> p.Some? && data[p.value] != NUL
      ensures ok ==> forall i | 0 <= i < |live| && Pointers()[i] == p.value ::
        IsParts(data[..], p.value, len1, s2, len2, live[i])
    {
      ok, len1, s2, len2 := false, 0, None, 0;
      if p.None? || data[p.value] == NUL {
        return;
      }
      ok := true;
      len1 := Measure(p.value, data.Length - p.value);
      if p.value + len1 - 1 == data.Length - 1 {
        s2 := Some(0);
        len2 := Measure(0, data.Length);
      }
      ghost var m := data[..];
      assert forall j | 0 <= j < |m| :: m[j] == data[j];
      forall i | 0 <= i < |live| && Pointers()[i] == p.value
        ensures IsParts(data[..], p.value, len1, s2, len2, live[i])
      {
        PartsOfLive(m, Start(), live, i, p.value, len1, s2, len2);
      }
    }

    /** The two `memset`s of `scpiheap_free`, which meet round the end of the ring. */
    method ClearParts(p: nat, len1: nat, s2: Option<nat>, len2: nat)
      requires p + len1 <= data.Length && len1 + len2 <= data.Length && len1 > 0
      requires if s2.Some? then s2.value == 0 && p + len1 == data.Length else len2 == 0
      modifies data
      ensures Erased(old(data[..]), data[..], p, len1 + len2)
      ensures data[p] == NUL
    {
      if s2.Some? {
        Clear(s2.value, len2);
      }
      Clear(p, len1);
    }

    /**
     `scpiheap_free`. The error queue frees its oldest text, or with `rollback` its newest one;
     a null pointer and a text already freed are ignored.
     */
    method Free(p: Option<nat>, rollback: bool)
      requires Valid()
      requires p.Some? ==> p.value < data.Length
      requires p.Some? && data[p.value] != NUL ==>
        live != [] && p.value == Pointers()[if rollback then |live| - 1 else 0]
      modifies this, data
      ensures Valid()
      ensures if p.None? || old(data[p.value]) == NUL then
          live == old(live) && Pointers() == old(Pointers())
        else
          live == Without(old(live), rollback) && Pointers() == Without(old(Pointers()), rollback)
      ensures p.Some? ==> data[p.value] == NUL
    {
      if p.None? {
        return;
      }
      var ok, len1, s2, len2 := GetParts(p);
      if !ok {
        return;
      }
      FreeText(p.value, len1, s2, len2, rollback);
    }

    /** Frees a live text whose pieces have been found. */
    method FreeText(p: nat, len1: nat, s2: Option<nat>, len2: nat, rollback: bool)
      requires Valid() && live != [] && p == Pointers()[if rollback then |live| - 1 else 0]
      requires IsParts(data[..], p, len1, s2, len2, live[if rollback then |live| - 1 else 0])
      modifies this, data
      ensures Valid() && data[p] == NUL
      ensures live == Without(old(live), rollback) && Pointers() == Without(old(Pointers()), rollback)
    {
      ghost var m, start, t := data[..], Start(), live[if rollback then |live| - 1 else 0];
      assert t != [] && |t| < |m| by {
        LayoutRead(m, start, live, if rollback then |live| - 1 else 0);
      }
      var n1, n2 := len1, len2;
      if s2.Some? {
        n2 := n2 + 1;
      } else {
        n1 := n1 + 1;
      }
      var freed := n1 + n2;
      assert freed == |t| + 1;
      ClearParts(p, n1, s2, n2);
      ghost var rest := Without(live, rollback);
      ghost var start' := if rollback then start else Wrap(start + freed, data.Length);
      ErasedLayout(m, data[..], start, live, rollback, t, start', rest);
      Account(freed, rollback, start, rest);
    }

    /** The bookkeeping at the end of `scpiheap_free`, once the bytes are zeroed. */
    method Account(freed: nat, rollback: bool, ghost start: nat, ghost rest: seq<string>)
      requires wr < data.Length && count <= data.Length && start == Start()
      requires |Packed(rest)| + freed + count == data.Length && freed > 0
      requires Layout(data[..], if rollback then start else Wrap(start + freed, data.Length), rest)
      modifies this
      ensures Valid() && live == rest
      ensures Pointers() == Addresses(rest, if rollback then start else Wrap(start + freed, data.Length), data.Length)
    {
      LiveNeedsRoom(rest);
      live := rest;
      count := count + freed;
      if count == data.Length {
        wr := 0;
        return;
      }
      if rollback {
        if freed > wr {
          wr := wr + data.Length;
        }
        wr := wr - freed;
      }
    }
  }
}
