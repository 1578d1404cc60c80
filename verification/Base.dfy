/** Helpers shared by every module: an option type, ring arithmetic, C strings. */
module Base {
  datatype Option<+T> = None | Some(value: T)

  const NUL := '\0'

  /** Reduces an index that is less than two laps into a ring of `n` cells. */
  function Wrap(i: int, n: int): (w: int)
    requires 0 <= i < 2 * n
    ensures 0 <= w < n
  {
    if i < n then i else i - n
  }

  /** The `%` the C code uses and the subtraction the proofs use agree. */
  lemma ModIsWrap(i: int, n: int)
    requires 0 <= i < 2 * n
    ensures i % n == Wrap(i, n)
  {
    if i < n {
      assert i == 0 * n + i;
    } else {
      assert i == 1 * n + (i - n);
      assert (i - n) % n == i - n;
    }
  }

  function Min(a: int, b: int): int {
    if a < b then a else b
  }

  predicate IsDigit(c: char) {
    '0' <= c <= '9'
  }

  /** `strnlen`: the index of the first NUL, or `n` when there is none before it. */
  function StrNLen(s: string, n: nat): (k: nat)
    requires n <= |s| || NUL in s
    ensures k <= n && k <= |s|
    ensures NUL !in s[..k]
    ensures k < n ==> k < |s| && s[k] == NUL
  {
    if n == 0 || s[0] == NUL then 0 else 1 + StrNLen(s[1..], n - 1)
  }

  lemma AppendSlices(s: string, x: string, n: nat)
    requires n <= |s|
    ensures (s + x)[..n] == s[..n] && (s + x)[n..] == s[n..] + x
  {
  }

  lemma SliceAll(s: string)
    ensures s[..|s|] == s && s[|s|..] == "" && "" + s == s && s + "" == s
  {
  }
}
