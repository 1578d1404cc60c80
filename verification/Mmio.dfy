/** `mmio_region_memcpy32`: a byte copy between memory and a region that takes only aligned 32-bit accesses. */
module Mmio {
  type Byte = x: int | 0 <= x < 256

  const WORD_LIMIT := 0x1_0000_0000

  predicate IsWord(w: int) {
    0 <= w < WORD_LIMIT
  }

  /** The bytes of a word as they lie in little-endian memory. */
  function WordBytes(w: nat): (b: seq<Byte>)
    requires IsWord(w)
    ensures |b| == 4
  {
    var v: int := w;
    [v % 256, (v / 256) % 256, (v / 65536) % 256, (v / 16777216) % 256]
  }

  function BytesWord(b: seq<Byte>): (w: nat)
    requires |b| == 4
    ensures IsWord(w)
  {
    var b0: int, b1: int, b2: int, b3: int := b[0], b[1], b[2], b[3];
    b0 + 256 * b1 + 65536 * b2 + 16777216 * b3
  }

  lemma WordRoundTrip(b: seq<Byte>)
    requires |b| == 4
    ensures WordBytes(BytesWord(b)) == b
  {
    var w: int, b1: int, b2: int, b3: int := BytesWord(b), b[1], b[2], b[3];
    assert w / 256 == b1 + 256 * b2 + 65536 * b3;
    assert w / 65536 == b2 + 256 * b3;
    assert w / 16777216 == b3;
  }

  predicate AllWords(ws: seq<nat>) {
    forall i | 0 <= i < |ws| :: IsWord(ws[i])
  }

  /** The region as bytes. */
  function Bytes(ws: seq<nat>): (b: seq<Byte>)
    requires AllWords(ws)
    ensures |b| == 4 * |ws|
  {
    if ws == [] then [] else WordBytes(ws[0]) + Bytes(ws[1..])
  }

  lemma {:induction false} BytesSplit(ws: seq<nat>, k: nat)
    requires AllWords(ws) && k <= |ws|
    ensures AllWords(ws[..k]) && AllWords(ws[k..]) && Bytes(ws) == Bytes(ws[..k]) + Bytes(ws[k..])
  {
    if k == 0 {
      assert ws[..0] == [] && ws[0..] == ws;
    } else {
      BytesSplit(ws[1..], k - 1);
      assert ws[..k][1..] == ws[1..][..k - 1] && ws[1..][k - 1..] == ws[k..];
    }
  }

  /** The bytes of one word of the region. */
  lemma BytesAt(ws: seq<nat>, k: nat)
    requires AllWords(ws) && k < |ws|
    ensures Bytes(ws)[4 * k..4 * k + 4] == WordBytes(ws[k])
  {
    var a, b, c := Around(ws, k);
    Middle(Bytes(ws), a, b, c, 4 * k);
  }

  /** Byte `i` of a word, the least significant first. */
  function ByteOf(w: nat, i: nat): Byte {
    w / (if i == 0 then 1 else if i == 1 then 0x100 else if i == 2 then 0x1_0000 else 0x100_0000) % 256
  }

  lemma ByteOfWord(w: nat, i: nat)
    requires IsWord(w) && i < 4
    ensures WordBytes(w)[i] == ByteOf(w, i)
  {
  }

  /** Byte `j` of the region lies in word `j / 4`. */
  lemma ByteAt(ws: seq<nat>, j: nat)
    requires AllWords(ws) && j < 4 * |ws|
    ensures Bytes(ws)[j] == ByteOf(ws[j / 4], j % 4)
  {
    var k, i := j / 4, j % 4;
    BytesAt(ws, k);
    assert Bytes(ws)[j] == Bytes(ws)[4 * k..4 * k + 4][i];
    ByteOfWord(ws[k], i);
  }

  lemma Around(ws: seq<nat>, k: nat) returns (a: seq<Byte>, b: seq<Byte>, c: seq<Byte>)
    requires AllWords(ws) && k < |ws|
    ensures Bytes(ws) == a + (b + c) && |a| == 4 * k && |b| == 4 && b == WordBytes(ws[k])
  {
    BytesSplit(ws, k);
    var rest := ws[k..];
    assert rest[0] == ws[k];
    BytesFirst(rest);
    a, b, c := Bytes(ws[..k]), WordBytes(rest[0]), Bytes(rest[1..]);
  }

  lemma BytesFirst(ws: seq<nat>)
    requires AllWords(ws) && ws != []
    ensures Bytes(ws) == WordBytes(ws[0]) + Bytes(ws[1..])
  {
  }

  lemma Middle(all: seq<Byte>, a: seq<Byte>, b: seq<Byte>, c: seq<Byte>, at: nat)
    requires all == a + (b + c) && at == |a| && |b| == 4
    ensures all[at..at + 4] == b
  {
  }

  /** Writing one word changes its four bytes and no other. */
  lemma BytesUpdate(ws: seq<nat>, k: nat, w: nat)
    requires AllWords(ws) && k < |ws| && IsWord(w)
    ensures AllWords(ws[k := w])
    ensures Bytes(ws[k := w]) == Bytes(ws)[..4 * k] + WordBytes(w) + Bytes(ws)[4 * k + 4..]
  {
    var us := ws[k := w];
    BytesSplit(ws, k);
    BytesSplit(us, k);
    assert us[..k] == ws[..k] && us[k..] == [w] + ws[k + 1..] && ws[k..] == [ws[k]] + ws[k + 1..];
  }

  /** `b` with `data` written at `at`. */
  function Overwritten(b: seq<Byte>, at: nat, data: seq<Byte>): (r: seq<Byte>)
    requires at + |data| <= |b|
    ensures |r| == |b|
  {
    b[..at] + data + b[at + |data|..]
  }

  lemma OverwriteTwice(b: seq<Byte>, at: nat, x: seq<Byte>, y: seq<Byte>)
    requires at + |x| + |y| <= |b|
    ensures Overwritten(Overwritten(b, at, x), at + |x|, y) == Overwritten(b, at, x + y)
  {
  }

  /** Overwriting part of one word: what a read, a change and a write of that word do to the region. */
  lemma OverwriteInWord(ws: seq<nat>, k: nat, m: nat, data: seq<Byte>)
    requires AllWords(ws) && k < |ws| && m + |data| <= 4
    ensures var w := BytesWord(Overwritten(WordBytes(ws[k]), m, data));
      AllWords(ws[k := w]) && Bytes(ws[k := w]) == Overwritten(Bytes(ws), 4 * k + m, data)
  {
    var part := Overwritten(WordBytes(ws[k]), m, data);
    WordRoundTrip(part);
    BytesAt(ws, k);
    BytesUpdate(ws, k, BytesWord(part));
    OverwritePart(Bytes(ws), 4 * k, m, data);
  }

  lemma WholeWord(b: seq<Byte>, data: seq<Byte>)
    requires |b| == |data| == 4
    ensures Overwritten(b, 0, data) == data
  {
  }

  /** Overwriting a part of four bytes in their place is overwriting that part in the whole. */
  lemma OverwritePart(b: seq<Byte>, at: nat, m: nat, data: seq<Byte>)
    requires at + 4 <= |b| && m + |data| <= 4
    ensures b[..at] + Overwritten(b[at..at + 4], m, data) + b[at + 4..] == Overwritten(b, at + m, data)
  {
    assert b[..at] + b[at..at + 4][..m] == b[..at + m];
    assert b[at..at + 4][m + |data|..] + b[at + 4..] == b[at + m + |data|..];
  }

  datatype Access = Access(write: bool, offset: nat)

  function Reads(log: seq<Access>): nat {
    if log == [] then 0 else Reads(log[..|log| - 1]) + if log[|log| - 1].write then 0 else 1
  }

  lemma ReadsSnoc(log: seq<Access>, a: Access)
    ensures Reads(log + [a]) == Reads(log) + if a.write then 0 else 1
  {
    assert (log + [a])[..|log|] == log;
  }

  /** Every access is to a whole word that holds a byte of the range. */
  ghost predicate Within(log: seq<Access>, from: nat, to: nat) {
    forall a | a in log :: a.offset % 4 == 0 && a.offset < to && from < a.offset + 4
  }

  class Region {
    const words: array<nat>
    var log: seq<Access>

    ghost predicate Valid()
      reads this, words
    {
      AllWords(words[..]) && 4 * words.Length <= WORD_LIMIT
    }

    ghost function Contents(): seq<Byte>
      requires Valid()
      reads this, words
    {
      Bytes(words[..])
    }

    constructor (words: array<nat>)
      requires AllWords(words[..]) && 4 * words.Length <= WORD_LIMIT
      ensures Valid() && this.words == words && log == []
    {
      this.words, log := words, [];
    }

    /** `mmio_region_read32`, at a word boundary. */
    method Read32(k: nat) returns (w: nat)
      requires Valid() && k < words.Length
      modifies this`log
      ensures Valid() && IsWord(w) && w == words[k] && log == old(log) + [Access(false, k * 4)]
    {
      w := words[k];
      assert words[..][k] == w;
      log := log + [Access(false, k * 4)];
    }

    /** `mmio_region_write32`, at a word boundary. */
    method Write32(k: nat, w: nat)
      requires Valid() && k < words.Length && IsWord(w)
      modifies this`log, words
      ensures Valid() && words[..] == old(words[..])[k := w] && log == old(log) + [Access(true, k * 4)]
    {
      words[k] := w;
      assert words[..] == old(words[..])[k := w];
      log := log + [Access(true, k * 4)];
    }

    /** Copies the `n` bytes at `q`, which lie in one word, to memory. */
    method PartFrom(q: nat, n: nat, buf: array<Byte>, at: nat, ghost data: seq<Byte>)
      requires Valid() && q + n <= 4 * words.Length && 0 < n && q % 4 + n <= 4 && at + n <= buf.Length
      requires data == Contents()[q..q + n]
      modifies this`log, buf
      ensures Valid() && words[..] == old(words[..]) && buf[..] == Overwritten(old(buf[..]), at, data)
      ensures log == old(log) + Accesses(q, true, true)
    {
      ghost var ws := words[..];
      var k, m := q / 4, q % 4;
      var w := Read32(k);
      var b := WordBytes(w);
      BytesAt(ws, k);
      PartOfWord(Bytes(ws), k, m, n);
      assert data == b[m..m + n];
      forall i | 0 <= i < n {
        buf[at + i] := b[m + i];
      }
      assert buf[..] == Overwritten(old(buf[..]), at, b[m..m + n]);
    }

    /** Copies `n` bytes of memory to `q`, in one word; only a whole word need not be read before. */
    method PartTo(q: nat, n: nat, buf: array<Byte>, at: nat, read: bool, ghost data: seq<Byte>)
      requires Valid() && q + n <= 4 * words.Length && 0 < n && q % 4 + n <= 4 && at + n <= buf.Length
      requires read || n == 4
      requires data == buf[at..at + n]
      modifies this`log, words
      ensures Valid() && Contents() == Overwritten(old(Contents()), q, data)
      ensures log == old(log) + Accesses(q, false, read)
    {
      ghost var ws := words[..];
      var k, m := q / 4, q % 4;
      assert 4 * k + m == q;
      var w := 0;
      if read {
        w := Read32(k);
      }
      var part := Overwritten(WordBytes(w), m, buf[at..at + n]);
      OverwriteInWord(ws, k, m, data);
      if !read {
        WholeWord(WordBytes(w), data);
        WholeWord(WordBytes(ws[k]), data);
      }
      Write32(k, BytesWord(part));
    }

    /** The first `d` bytes have been copied: `c` and `b` are what region and memory held before. */
    ghost predicate Copied(c: seq<Byte>, b: seq<Byte>, buf: array<Byte>, offset: nat, len: nat, d: nat, fromMmio: bool)
      reads this, words, buf
    {
      && Valid() && offset + len <= |c| && d <= len <= |b|
      && (fromMmio ==> Contents() == c && buf[..] == Overwritten(b, 0, c[offset..offset + len][..d]))
      && (!fromMmio ==> buf[..] == b && Contents() == Overwritten(c, offset, b[..len][..d]))
    }

    /** One turn of the copy: `n` bytes of one word. */
    method Advance(buf: array<Byte>, offset: nat, len: nat, d: nat, n: nat, fromMmio: bool, read: bool,
                   ghost c: seq<Byte>, ghost b: seq<Byte>)
      requires Copied(c, b, buf, offset, len, d, fromMmio) && 0 < n && d + n <= len && (offset + d) % 4 + n <= 4
      requires read || (n == 4 && !fromMmio)
      modifies this`log, words, buf
      ensures Copied(c, b, buf, offset, len, d + n, fromMmio)
      ensures log == old(log) + Accesses(offset + d, fromMmio, read)
    {
      if fromMmio {
        AdvanceFrom(buf, offset, len, d, n, c, b);
      } else {
        AdvanceTo(buf, offset, len, d, n, read, c, b);
      }
    }

    method AdvanceFrom(buf: array<Byte>, offset: nat, len: nat, d: nat, n: nat, ghost c: seq<Byte>, ghost b: seq<Byte>)
      requires Copied(c, b, buf, offset, len, d, true) && 0 < n && d + n <= len && (offset + d) % 4 + n <= 4
      modifies this`log, buf
      ensures Copied(c, b, buf, offset, len, d + n, true)
      ensures log == old(log) + Accesses(offset + d, true, true)
    {
      ghost var part := c[offset + d..offset + d + n];
      assert CopyStep(b, 0, c[offset..offset + len], d, n, part) by {
        OverwriteMore(b, 0, c[offset..offset + len], d, n);
        InnerSlice(c, offset, len, d, n);
      }
      PartFrom(offset + d, n, buf, d, part);
    }

    method AdvanceTo(buf: array<Byte>, offset: nat, len: nat, d: nat, n: nat, read: bool, ghost c: seq<Byte>,
          ghost b: seq<Byte>)
      requires Copied(c, b, buf, offset, len, d, false) && 0 < n && d + n <= len && (offset + d) % 4 + n <= 4
      requires read || n == 4
      modifies this`log, words
      ensures Copied(c, b, buf, offset, len, d + n, false)
      ensures log == old(log) + Accesses(offset + d, false, read)
    {
      ghost var part := b[d..d + n];
      assert CopyStep(c, offset, b[..len], d, n, part) by {
        OverwriteMore(c, offset, b[..len], d, n);
        PrefixSlice(b, len, d, n);
      }
      assert part == buf[d..d + n];
      PartTo(offset + d, n, buf, d, read, part);
    }

    /** The same with the trace of all accesses so far. */
    method Turn(buf: array<Byte>, offset: nat, len: nat, d: nat, n: nat, fromMmio: bool, read: bool,
                ghost c: seq<Byte>, ghost b: seq<Byte>, ghost start: seq<Access>, ghost before: seq<Access>)
        returns (ghost trace: seq<Access>)
      requires Copied(c, b, buf, offset, len, d, fromMmio) && 0 < n && d + n <= len && (offset + d) % 4 + n <= 4
      requires (read || (n == 4 && !fromMmio)) && Within(before, offset, offset + len) && log == start + before
      modifies this`log, words, buf
      ensures Copied(c, b, buf, offset, len, d + n, fromMmio)
      ensures log == start + trace
      ensures Within(trace, offset, offset + len) && Reads(trace) == Reads(before) + if read then 1 else 0
    {
      Advance(buf, offset, len, d, n, fromMmio, read, c, b);
      trace := AddAccesses(before, offset + d, fromMmio, read, offset, offset + len);
    }

    /** Brings the region's offset into word alignment: how many bytes that copies. */
    method Align(offset: nat, buf: array<Byte>, len: nat, fromMmio: bool, ghost c: seq<Byte>, ghost b: seq<Byte>)
        returns (d: nat, ghost trace: seq<Access>)
      requires Copied(c, b, buf, offset, len, 0, fromMmio) && 0 < len
      modifies this`log, words, buf
      ensures Copied(c, b, buf, offset, len, d, fromMmio) && (d < len ==> (offset + d) % 4 == 0)
      ensures log == old(log) + trace && Within(trace, offset, offset + len)
      ensures Reads(trace) == if d > 0 then 1 else 0
    {
      trace, d := [], 0;
      var misalignment := offset % 4;
      if misalignment != 0 {
        var realignment := 4 - misalignment;
        if realignment > len {
          realignment := len;
        }
        Realigned(offset, realignment, len);
        trace := Turn(buf, offset, len, 0, realignment, fromMmio, true, c, b, log, []);
        d := realignment;
      }
    }

    /** The loop over the words behind that, from byte `d0` on. */
    method CopyWords(offset: nat, buf: array<Byte>, len: nat, d0: nat, fromMmio: bool, ghost c: seq<Byte>,
          ghost b: seq<Byte>)
        returns (ghost trace: seq<Access>)
      requires Copied(c, b, buf, offset, len, d0, fromMmio) && (d0 < len ==> (offset + d0) % 4 == 0)
      modifies this`log, words, buf
      ensures Copied(c, b, buf, offset, len, len, fromMmio)
      ensures log == old(log) + trace && Within(trace, offset, offset + len)
      ensures 4 * Reads(trace) <= len - d0 + 3 && (!fromMmio ==> Reads(trace) <= 1)
    {
      ghost var start := log;
      trace := [];
      var d := d0;
      while d < len
        invariant d0 <= d <= len && Copied(c, b, buf, offset, len, d, fromMmio) && (d < len ==> (offset + d) % 4 == 0)
        invariant log == old(log) + trace && Within(trace, offset, offset + len)
        invariant 4 * Reads(trace) <= d - d0 + (if d < len then 0 else 3)
        invariant !fromMmio ==> Reads(trace) <= if d < len then 0 else 1
      {
        var bytesToCopy := 4;
        if bytesToCopy > len - d {
          bytesToCopy := len - d;
        }
        Aligned(offset, d, bytesToCopy);
        trace := Turn(buf, offset, len, d, bytesToCopy, fromMmio, fromMmio || bytesToCopy != 4, c, b, start, trace);
        d := d + bytesToCopy;
      }
    }

    /** `mmio_region_memcpy32`. */
    method Memcpy32(offset: nat, buf: array<Byte>, len: nat, fromMmio: bool) returns (ghost trace: seq<Access>)
      requires Valid() && offset + len <= 4 * words.Length && len <= buf.Length
      modifies this`log, words, buf
      ensures Valid()
      ensures fromMmio ==> Contents() == old(Contents())
      ensures fromMmio ==> buf[..] == Overwritten(old(buf[..]), 0, old(Contents())[offset..offset + len])
      ensures !fromMmio ==> buf[..] == old(buf[..])
      ensures !fromMmio ==> Contents() == Overwritten(old(Contents()), offset, old(buf[..])[..len])
      ensures !fromMmio ==>
        forall j | 0 <= j < 4 * words.Length :: ByteWritten(old(words[..]), words[..], buf[..], offset, len, j)
      ensures fromMmio ==>
        forall j | 0 <= j < buf.Length :: ByteRead(old(words[..]), old(buf[..]), buf[..], offset, len, j)
      ensures log == old(log) + trace && Within(trace, offset, offset + len)
      ensures Reads(trace) <= len / 4 + 2 && (!fromMmio ==> Reads(trace) <= 2)
    {
      ghost var c, b, ws := Contents(), buf[..], words[..];
      NothingCopied(c, b, buf, offset, len, fromMmio);
      if len == 0 {
        trace := [];
      } else {
        trace := AlignAndCopy(offset, buf, len, fromMmio, c, b);
      }
      AllCopied(c, b, buf, offset, len, fromMmio);
      if fromMmio {
        BytesRead(ws, b, buf[..], offset, len);
      } else {
        BytesWritten(ws, words[..], b, offset, len);
      }
    }

    method AlignAndCopy(offset: nat, buf: array<Byte>, len: nat, fromMmio: bool, ghost c: seq<Byte>, ghost b: seq<Byte>)
        returns (ghost trace: seq<Access>)
      requires Copied(c, b, buf, offset, len, 0, fromMmio) && 0 < len
      modifies this`log, words, buf
      ensures Copied(c, b, buf, offset, len, len, fromMmio)
      ensures log == old(log) + trace && Within(trace, offset, offset + len)
      ensures Reads(trace) <= len / 4 + 2 && (!fromMmio ==> Reads(trace) <= 2)
    {
      ghost var before := log;
      var d, first := Align(offset, buf, len, fromMmio, c, b);
      ghost var more := CopyWords(offset, buf, len, d, fromMmio, c, b);
      trace := first + more;
      TwoTraces(before, first, more, offset, offset + len);
      ReadBound(Reads(first), Reads(more), len, d);
    }

    lemma NothingCopied(c: seq<Byte>, b: seq<Byte>, buf: array<Byte>, offset: nat, len: nat, fromMmio: bool)
      requires Valid() && offset + len <= |c| && len <= |b| && c == Contents() && b == buf[..]
      ensures Copied(c, b, buf, offset, len, 0, fromMmio)
    {
    }

    lemma AllCopied(c: seq<Byte>, b: seq<Byte>, buf: array<Byte>, offset: nat, len: nat, fromMmio: bool)
      requires Copied(c, b, buf, offset, len, len, fromMmio)
      ensures fromMmio ==> Contents() == c && buf[..] == Overwritten(b, 0, c[offset..offset + len])
      ensures !fromMmio ==> buf[..] == b && Contents() == Overwritten(c, offset, b[..len])
    {
      assert c[offset..offset + len][..len] == c[offset..offset + len] && b[..len][..len] == b[..len];
    }

    /**
     `mmio_region_memcpy_to_mmio32` and then `mmio_region_memcpy_from_mmio32` of the same range returns the source.
     */
    method WriteThenRead(offset: nat, src: array<Byte>, dest: array<Byte>, len: nat)
      requires Valid() && offset + len <= 4 * words.Length && len <= src.Length && len <= dest.Length && src != dest
      modifies this`log, words, src, dest
      ensures Valid() && src[..] == old(src[..]) && dest[..len] == src[..len] && dest[len..] == old(dest[len..])
      ensures Contents() == Overwritten(old(Contents()), offset, src[..len])
    {
      ghost var data, was := src[..len], dest[..];
      assert src[..][..len] == data && was[len..] == dest[len..];
      var written := Memcpy32(offset, src, len, false);
      assert Contents()[offset..offset + len] == data;
      var read := Memcpy32(offset, dest, len, true);
      ghost var now := dest[..];
      assert now == Overwritten(was, 0, data);
      assert now[..len] == data && now[len..] == was[len..];
      assert dest[..len] == now[..len] && dest[len..] == now[len..];
    }
  }

  lemma OverwrittenAt(b: seq<Byte>, at: nat, data: seq<Byte>, j: nat)
    requires at + |data| <= |b| && j < |b|
    ensures Overwritten(b, at, data)[j] == if at <= j < at + |data| then data[j - at] else b[j]
  {
  }

  /** Byte `j` of the region behind a write to it. */
  predicate ByteWritten(was: seq<nat>, now: seq<nat>, b: seq<Byte>, at: nat, len: nat, j: nat)
    requires |was| == |now| && j < 4 * |was| && len <= |b|
  {
    ByteOf(now[j / 4], j % 4) == if at <= j < at + len then b[j - at] else ByteOf(was[j / 4], j % 4)
  }

  lemma BytesWritten(was: seq<nat>, now: seq<nat>, b: seq<Byte>, at: nat, len: nat)
    requires AllWords(was) && AllWords(now) && |was| == |now| && at + len <= 4 * |was| && len <= |b|
    requires Bytes(now) == Overwritten(Bytes(was), at, b[..len])
    ensures forall j | 0 <= j < 4 * |was| :: ByteWritten(was, now, b, at, len, j)
  {
    forall j | 0 <= j < 4 * |was| ensures ByteWritten(was, now, b, at, len, j) {
      ByteAt(was, j);
      ByteAt(now, j);
      OverwrittenAt(Bytes(was), at, b[..len], j);
    }
  }

  /** Byte `j` of the memory behind a read from the region. */
  predicate ByteRead(words: seq<nat>, was: seq<Byte>, now: seq<Byte>, at: nat, len: nat, j: nat)
    requires |was| == |now| && j < |was| && at + len <= 4 * |words|
  {
    now[j] == if j < len then ByteOf(words[(at + j) / 4], (at + j) % 4) else was[j]
  }

  lemma BytesRead(words: seq<nat>, was: seq<Byte>, now: seq<Byte>, at: nat, len: nat)
    requires AllWords(words) && at + len <= 4 * |words| && len <= |was|
    requires now == Overwritten(was, 0, Bytes(words)[at..at + len])
    ensures |now| == |was| && forall j | 0 <= j < |was| :: ByteRead(words, was, now, at, len, j)
  {
    var data := Bytes(words)[at..at + len];
    forall j | 0 <= j < |was| ensures ByteRead(words, was, now, at, len, j) {
      OverwrittenAt(was, 0, data, j);
      if j < len {
        SliceByte(words, at, len, j);
      }
    }
  }

  lemma SliceByte(words: seq<nat>, at: nat, len: nat, j: nat)
    requires AllWords(words) && at + len <= 4 * |words| && j < len
    ensures Bytes(words)[at..at + len][j] == ByteOf(words[(at + j) / 4], (at + j) % 4)
  {
    ByteAt(words, at + j);
  }

  /** After the first part the offset is aligned, unless the copy is complete. */
  lemma Realigned(offset: nat, n: nat, len: nat)
    requires offset % 4 != 0 && n <= 4 - offset % 4 && (n < len ==> n == 4 - offset % 4)
    ensures offset % 4 + n <= 4 && (n < len ==> (offset + n) % 4 == 0)
  {
  }

  /** A whole word leads from one aligned offset to the next. */
  lemma Aligned(offset: nat, d: nat, n: nat)
    requires (offset + d) % 4 == 0 && n <= 4
    ensures (offset + d) % 4 + n <= 4 && (n == 4 ==> (offset + (d + n)) % 4 == 0)
  {
  }

  /** What one turn asks of the region: a read, a write, or both, of the word at the offset. */
  function Accesses(at: nat, fromMmio: bool, read: bool): seq<Access> {
    (if read then [Access(false, at / 4 * 4)] else []) + if fromMmio then [] else [Access(true, at / 4 * 4)]
  }

  lemma {:induction false} ReadsAppend(a: seq<Access>, b: seq<Access>)
    ensures Reads(a + b) == Reads(a) + Reads(b)
  {
    if b == [] {
      assert a + b == a;
    } else {
      assert (a + b)[..|a + b| - 1] == a + b[..|b| - 1];
      ReadsAppend(a, b[..|b| - 1]);
    }
  }

  lemma TwoTraces(log: seq<Access>, a: seq<Access>, b: seq<Access>, from: nat, to: nat)
    requires Within(a, from, to) && Within(b, from, to)
    ensures log + a + b == log + (a + b) && Within(a + b, from, to) && Reads(a + b) == Reads(a) + Reads(b)
  {
    ReadsAppend(a, b);
  }

  lemma ReadBound(a: nat, b: nat, len: nat, d: nat)
    requires d <= len && a <= (if d > 0 then 1 else 0) && 4 * b <= len - d + 3
    ensures a + b <= len / 4 + 2
  {
    assert len < 4 * (len / 4) + 4;
  }

  lemma AddAccesses(trace: seq<Access>, at: nat, fromMmio: bool, read: bool, from: nat, to: nat)
        returns (more: seq<Access>)
    requires Within(trace, from, to) && from <= at < to
    ensures more == trace + Accesses(at, fromMmio, read)
    ensures Within(more, from, to) && Reads(more) == Reads(trace) + if read then 1 else 0
  {
    var r, w := Access(false, at / 4 * 4), Access(true, at / 4 * 4);
    var once := trace + if read then [r] else [];
    more := once + if fromMmio then [] else [w];
    ReadsSnoc(trace, r);
    ReadsSnoc(once, w);
    assert more == trace + Accesses(at, fromMmio, read);
  }

  /** Writing the next part behind the first `d` bytes gives the first `d + n`. */
  ghost predicate CopyStep(was: seq<Byte>, at: nat, data: seq<Byte>, d: nat, n: nat, part: seq<Byte>) {
    && d + n <= |data| && at + |data| <= |was| && |part| == n
    && Overwritten(Overwritten(was, at, data[..d]), at + d, part) == Overwritten(was, at, data[..d + n])
  }

  lemma OverwriteMore(b: seq<Byte>, at: nat, data: seq<Byte>, d: nat, n: nat)
    requires d + n <= |data| && at + |data| <= |b|
    ensures Overwritten(Overwritten(b, at, data[..d]), at + d, data[d..d + n]) == Overwritten(b, at, data[..d + n])
  {
    OverwriteTwice(b, at, data[..d], data[d..d + n]);
    assert data[..d] + data[d..d + n] == data[..d + n];
  }

  lemma PartOfWord(b: seq<Byte>, k: nat, m: nat, n: nat)
    requires 4 * k + 4 <= |b| && m + n <= 4
    ensures b[4 * k..4 * k + 4][m..m + n] == b[4 * k + m..4 * k + m + n]
  {
    InnerSlice(b, 4 * k, 4, m, n);
  }

  lemma PrefixSlice(b: seq<Byte>, len: nat, d: nat, n: nat)
    requires d + n <= len <= |b|
    ensures b[..len][d..d + n] == b[d..d + n]
  {
  }

  lemma InnerSlice(b: seq<Byte>, at: nat, len: nat, m: nat, n: nat)
    requires at + len <= |b| && m + n <= len
    ensures b[at..at + len][m..m + n] == b[at + m..at + m + n]
  {
    var u, v := b[at..at + len][m..m + n], b[at + m..at + m + n];
    forall i | 0 <= i < n ensures u[i] == v[i] {
      assert u[i] == b[at..at + len][m + i];
    }
    assert u == v;
  }
}
