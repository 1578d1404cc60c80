/** Printing integers: `UInt32ToStrBaseSign` of `utils.c`. */
module IntegerText {
  import opened Arith
  import opened Base

  const TWO_TO_31 := 0x8000_0000
  const TWO_TO_32 := 0x1_0000_0000

  /** The entry of the table `digits`, "0123456789ABCDEF". */
  function DigitChar(d: nat): char
    requires d < 16
  {
    if d < 10 then (d + 48) as char else (d + 55) as char
  }

  function Pow(b: nat, k: nat): (p: nat)
    ensures b > 0 ==> p > 0
  {
    if k == 0 then 1 else b * Pow(b, k - 1)
  }

  /** The usual positional text of `v`: no leading zeros, and "0" for zero. */
  function Digits(v: nat, b: nat): (t: string)
    requires 2 <= b <= 16
    ensures t != []
  {
    if v < b then [DigitChar(v)] else DivSmaller(v, b); Digits(v / b, b) + [DigitChar(v % b)]
  }

  /** The number a digit character stands for, or 16 when it is no digit; letters count in either case. */
  function DigitValue(c: char): (d: nat)
    ensures d <= 16
  {
    var i := c as int;
    if 48 <= i <= 57 then i - 48
    else if 65 <= i <= 70 then i - 55
    else if 97 <= i <= 102 then i - 87
    else 16
  }

  /** A digit of the base as the printer writes it, with a capital letter. */
  predicate PrintedDigit(c: char, b: nat)
    requires 2 <= b <= 16
  {
    DigitValue(c) < b && DigitChar(DigitValue(c)) == c
  }

  function Value(t: string, b: nat): nat {
    if t == [] then 0 else Value(t[..|t| - 1], b) * b + DigitValue(t[|t| - 1])
  }

  /** A text as the printer writes it: capital digits of the base, and no leading zero unless it is the only digit. */
  predicate Canonical(t: string, b: nat)
    requires 2 <= b <= 16
  {
    && t != []
    && (forall c | c in t :: PrintedDigit(c, b))
    && (|t| > 1 ==> t[0] != '0')
  }

  lemma ValueOne(c: char, b: nat)
    ensures Value([c], b) == DigitValue(c)
  {
    assert [c][..0] == [];
  }

  lemma ValueSnoc(t: string, c: char, b: nat)
    ensures Value(t + [c], b) == Value(t, b) * b + DigitValue(c)
  {
    assert (t + [c])[..|t|] == t;
  }

  /** The printed text reads back as the number. */
  lemma {:induction false} DigitsValue(v: nat, b: nat)
    requires 2 <= b <= 16
    ensures Value(Digits(v, b), b) == v
  {
    if v < b {
      ValueOne(DigitChar(v), b);
    } else {
      DivSmaller(v, b);
      DigitsValue(v / b, b);
      DivMod(v, b);
      ValueSnoc(Digits(v / b, b), DigitChar(v % b), b);
    }
  }

  lemma {:induction false} DigitsCanonical(v: nat, b: nat)
    requires 2 <= b <= 16
    ensures Canonical(Digits(v, b), b)
    ensures Digits(v, b)[0] == '0' <==> v == 0
  {
    if v >= b {
      DivSmaller(v, b);
      DigitsCanonical(v / b, b);
    }
  }

  lemma {:induction false} ValuePositive(t: string, b: nat)
    requires 2 <= b <= 16 && t != []
    requires DigitValue(t[0]) > 0
    ensures Value(t, b) > 0
  {
    if |t| > 1 {
      ValuePositive(t[..|t| - 1], b);
      assert Value(t[..|t| - 1], b) * b > 0;
    }
  }

  lemma DigitsSnoc(q: nat, d: nat, b: nat)
    requires 2 <= b <= 16 && d < b && q > 0
    ensures Digits(q * b + d, b) == Digits(q, b) + [DigitChar(d)]
  {
    DivModUnique(q, d, b);
    MulOrder(0, q, b);
  }

  lemma CanonicalFront(t: string, b: nat)
    requires 2 <= b <= 16 && Canonical(t, b)
    ensures PrintedDigit(t[|t| - 1], b) && t == t[..|t| - 1] + [t[|t| - 1]]
    ensures |t| > 1 ==> Canonical(t[..|t| - 1], b) && DigitValue(t[0]) > 0
  {
    if |t| > 1 {
      assert forall c | c in t[..|t| - 1] :: c in t;
      assert PrintedDigit(t[0], b);
    }
  }

  /** A canonical text is the only one for its number. */
  lemma {:induction false} CanonicalUnique(t: string, b: nat)
    requires 2 <= b <= 16 && Canonical(t, b)
    ensures t == Digits(Value(t, b), b)
  {
    CanonicalFront(t, b);
    var front, last := t[..|t| - 1], t[|t| - 1];
    if front == [] {
      ValueOne(last, b);
    } else {
      ValuePositive(front, b);
      CanonicalUnique(front, b);
      DigitsSnoc(Value(front, b), DigitValue(last), b);
    }
  }

  /** The leading digit is the quotient by its place, and the remaining digits are the remainder. */
  lemma {:induction false} HeadDigit(t: string, b: nat)
    requires 2 <= b <= 16 && t != [] && forall c | c in t :: DigitValue(c) < b
    ensures Value(t, b) == DigitValue(t[0]) * Pow(b, |t| - 1) + Value(t[1..], b)
    ensures Value(t[1..], b) < Pow(b, |t| - 1)
  {
    var n := |t|;
    if n > 1 {
      var front := t[..n - 1];
      assert forall c | c in front :: c in t;
      HeadDigit(front, b);
      assert t[1..][..n - 2] == front[1..];
      assert DigitValue(t[n - 1]) < b;
      HeadStep(DigitValue(t[0]), Pow(b, n - 2), Value(front[1..], b), DigitValue(t[n - 1]), b);
    }
  }

  lemma HeadStep(d: nat, p: nat, w: nat, l: nat, b: nat)
    requires w < p && l < b
    ensures (d * p + w) * b + l == d * (b * p) + (w * b + l)
    ensures w * b + l < b * p
  {
    MulOrder(w, p, b);
  }

  lemma DigitQuotient(t: string, b: nat)
    requires 2 <= b <= 16 && t != [] && forall c | c in t :: DigitValue(c) < b
    ensures Value(t, b) / Pow(b, |t| - 1) == DigitValue(t[0])
    ensures Value(t, b) - DigitValue(t[0]) * Pow(b, |t| - 1) == Value(t[1..], b)
  {
    HeadDigit(t, b);
    DivModUnique(DigitValue(t[0]), Value(t[1..], b), Pow(b, |t| - 1));
  }

  /** A number lies between the powers its count of digits says. */
  lemma DigitsRange(v: nat, b: nat)
    requires 2 <= b <= 16 && v > 0
    ensures Pow(b, |Digits(v, b)| - 1) <= v < Pow(b, |Digits(v, b)|)
  {
    var t := Digits(v, b);
    DigitsValue(v, b);
    DigitsCanonical(v, b);
    assert forall c | c in t :: PrintedDigit(c, b);
    HeadDigit(t, b);
    LeadingDigit(DigitValue(t[0]), Pow(b, |t| - 1), b, v);
  }

  lemma LeadingDigit(d: nat, p: nat, b: nat, v: nat)
    requires 0 < d < b && d * p <= v < d * p + p
    ensures p <= v < b * p
  {
    if d > 1 {
      MulOrder(1, d, p);
    }
    MulOrder(d, b, p);
  }

  lemma {:induction false} PowMono(b: nat, i: nat, j: nat)
    requires b >= 2 && i <= j
    ensures Pow(b, i) <= Pow(b, j)
  {
    if i < j {
      PowMono(b, i, j - 1);
      assert Pow(b, j) == b * Pow(b, j - 1) >= Pow(b, j - 1);
    }
  }

  /** The base the printer really uses. */
  function PrintBase(base: int): nat {
    if base == 2 || base == 8 || base == 16 then base else 10
  }

  /** The text of a 32-bit word, read as a signed number when `sign` asks for it in base 10. */
  function IntText(val: nat, base: int, sign: bool): (t: string)
    requires val < TWO_TO_32
    ensures t != []
  {
    if sign && PrintBase(base) == 10 && val >= TWO_TO_31 then "-" + Digits(TWO_TO_32 - val, 10)
    else Digits(val, PrintBase(base))
  }

  lemma Powers()
    ensures Pow(2, 31) == 0x8000_0000 && Pow(2, 32) == TWO_TO_32
    ensures Pow(8, 10) == 0x4000_0000 && Pow(8, 11) == 8 * 0x4000_0000
    ensures Pow(10, 9) == 1_000_000_000 && Pow(10, 10) == 10_000_000_000
    ensures Pow(16, 7) == 0x1000_0000 && Pow(16, 8) == TWO_TO_32
  {
    assert Pow(2, 8) == 256;
    PowAdd(2, 8, 8);
    PowAdd(2, 16, 16);
    assert Pow(2, 7) == 128;
    PowAdd(2, 16, 8);
    PowAdd(2, 24, 7);
    assert Pow(8, 5) == 32768;
    PowAdd(8, 5, 5);
    assert Pow(10, 5) == 100_000 && Pow(10, 4) == 10_000;
    PowAdd(10, 5, 4);
    assert Pow(16, 4) == 65536 && Pow(16, 3) == 4096;
    PowAdd(16, 4, 3);
    PowAdd(16, 4, 4);
  }

  lemma {:induction false} PowAdd(b: nat, i: nat, j: nat)
    ensures Pow(b, i + j) == Pow(b, i) * Pow(b, j)
  {
    if i > 0 {
      PowAdd(b, i - 1, j);
      Associate(b, Pow(b, i - 1), Pow(b, j));
    }
  }

  lemma Associate(x: nat, y: nat, z: nat)
    ensures x * (y * z) == (x * y) * z
  {
  }

  /** The divisor the printer starts from and its exponent. */
  function TopPower(b: nat): (x: (nat, nat))
  {
    if b == 2 then (0x8000_0000, 31) else if b == 8 then (0x4000_0000, 10)
    else if b == 16 then (0x1000_0000, 7) else (1_000_000_000, 9)
  }

  /** Dividing the divisor by the base gives the next lower power, and zero below the units. */
  lemma DivPow(b: nat, k: nat)
    requires b > 1 && k > 0
    ensures Pow(b, k - 1) / b == if k == 1 then 0 else Pow(b, k - 2)
  {
    if k > 1 {
      DivModUnique(Pow(b, k - 2), 0, b);
    }
  }

  /** The loop that removes leading zeros: the divisor that brings up the first digit of the text `t`. */
  method LeadingPower(uval: nat, base: nat, x0: nat, ghost k0: nat, ghost t: string) returns (x: nat)
    requires 2 <= base <= 16 && uval > 0 && t == Digits(uval, base)
    requires k0 > 0 && x0 == Pow(base, k0 - 1) && uval < Pow(base, k0)
    ensures x == Pow(base, |t| - 1)
  {
    x := x0;
    ghost var k := k0;
    DigitsRange(uval, base);
    if k < |t| {
      PowMono(base, k, |t| - 1);
    }
    QuotientZero(uval, x);
    while uval / x == 0
      invariant k >= |t| && x == Pow(base, k - 1) && (uval / x == 0 <==> uval < x)
      decreases k
    {
      DivPow(base, k);
      k := k - 1;
      x := x / base;
      QuotientZero(uval, x);
    }
    if k > |t| {
      PowMono(base, |t|, k - 1);
    }
  }

  /** The loop that writes the digits `t` of a number, one a turn, until the divisor or the buffer runs out. */
  method WriteDigits(uval0: nat, base: nat, x0: nat, ghost before: string, ghost t: string,
                     str: array<char>, len: nat, pos0: nat) returns (pos: nat)
    requires 2 <= base <= 16 && t != [] && (forall c | c in t :: PrintedDigit(c, base))
    requires uval0 == Value(t, base) && x0 == Pow(base, |t| - 1)
    requires len <= str.Length && pos0 == Min(|before|, len) && str[..pos0] == before[..pos0]
    modifies str
    ensures var all := before + t;
      && pos == Min(|all|, len)
      && str[..pos] == all[..pos]
      && forall i | pos <= i < str.Length :: str[i] == old(str[i])
  {
    var uval, x, again := uval0, x0, true;
    ghost var written, rest := before, t;
    pos := pos0;
    while again
      invariant before + t == written + rest && (again ==> rest != [])
      invariant x == (if rest == [] then 0 else Pow(base, |rest| - 1)) && uval == Value(rest, base)
      invariant forall c | c in rest :: PrintedDigit(c, base)
      invariant pos == Min(|written|, len) && str[..pos] == written[..pos]
      invariant !again ==> rest == [] || pos == len
      invariant forall i | pos <= i < str.Length :: str[i] == old(str[i])
      decreases again, |rest|
    {
      DigitQuotient(rest, base);
      assert PrintedDigit(rest[0], base);
      var digit := uval / x;
      if pos < len {
        str[pos] := DigitChar(digit);
        pos := pos + 1;
      }
      written := written + [rest[0]];
      uval := uval - digit * x;
      DivPow(base, |rest|);
      x := x / base;
      rest := rest[1..];
      again := x != 0 && pos < len;
    }
  }

  /** Both loops: the text of a number that is not zero, written behind the sign. */
  method WriteNumber(uval: nat, base: nat, x0: nat, ghost before: string, str: array<char>, len: nat, pos0: nat)
    returns (pos: nat)
    requires 0 < uval < TWO_TO_32 && base in {2, 8, 10, 16} && x0 == TopPower(base).0
    requires len <= str.Length && pos0 == Min(|before|, len) && str[..pos0] == before[..pos0]
    modifies str
    ensures var all := before + Digits(uval, base);
      && pos == Min(|all|, len)
      && str[..pos] == all[..pos]
      && forall i | pos <= i < str.Length :: str[i] == old(str[i])
  {
    ghost var t, k := Digits(uval, base), TopPower(base).1 + 1;
    assert x0 == Pow(base, k - 1) && uval < Pow(base, k) by {
      Powers();
    }
    DigitsCanonical(uval, base);
    DigitsValue(uval, base);
    var x := LeadingPower(uval, base, x0, k, t);
    pos := WriteDigits(uval, base, x, before, t, str, len, pos0);
  }

  /**
   `UInt32ToStrBaseSign`: writes as much of the text as the `len` bytes of the buffer take, and a NUL when one fits
   behind it. The result is the number of bytes written without the NUL.
   */
  method UInt32ToStrBaseSign(val: nat, str: array<char>, len: nat, base0: int, sign: bool) returns (pos: nat)
    requires val < TWO_TO_32 && len <= str.Length
    modifies str
    ensures var t := IntText(val, base0, sign);
      && pos == Min(|t|, len)
      && str[..pos] == t[..pos]
      && (pos < len ==> str[pos] == NUL)
      && forall i | pos < i < str.Length || i == pos == len < str.Length :: str[i] == old(str[i])
  {
    ghost var text := IntText(val, base0, sign);
    var uval, base := val, base0;
    pos := 0;
    if uval == 0 {
      assert text == "0";
      if pos < len {
        str[pos] := '0';
        pos := pos + 1;
      }
    } else {
      var x := 0;
      match base {
        case 2 => x := 0x8000_0000;
        case 8 => x := 0x4000_0000;
        case 16 => x := 0x1000_0000;
        case _ => base := 10; x := 1_000_000_000;
      }
      ghost var written := [];
      if sign && val >= TWO_TO_31 && base == 10 {
        uval := TWO_TO_32 - val;
        written := "-";
        if pos < len {
          str[pos] := '-';
          pos := pos + 1;
        }
      }
      pos := WriteNumber(uval, base, x, written, str, len, pos);
    }
    assert str[..pos] == text[..pos];
    if pos < len {
      str[pos] := NUL;
      assert str[..pos] == text[..pos];
    }
  }

  /** `getBasePrefix`; nothing for base 10. */
  function BasePrefix(base: int): string {
    if base == 2 then "#B" else if base == 8 then "#Q" else if base == 16 then "#H" else ""
  }

  /** A 33-byte buffer holds every text. */
  lemma IntTextLength(val: nat, base: int, sign: bool)
    requires val < TWO_TO_32
    ensures |IntText(val, base, sign)| <= 32
  {
    var b := PrintBase(base);
    var v := if sign && b == 10 && val >= TWO_TO_31 then TWO_TO_32 - val else val;
    if v > 0 {
      DigitCount(v, b, TopPower(b).1 + 1);
    }
  }

  lemma DigitCount(v: nat, b: nat, k: nat)
    requires 0 < v < TWO_TO_32 && b in {2, 8, 10, 16} && k == TopPower(b).1 + 1
    ensures |Digits(v, b)| <= k
  {
    assert v < Pow(b, k) by {
      Powers();
    }
    DigitsRange(v, b);
    if |Digits(v, b)| > k {
      PowMono(b, k, |Digits(v, b)| - 1);
    }
  }
}
