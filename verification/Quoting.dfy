/** Quote doubling, and the longest prefix whose doubled form keeps within a budget. */
module Quoting {
  const QUOTE := '"'

  /** A string with every quote character written twice. */
  function Doubled(s: string, quote: char := QUOTE): (d: string)
    ensures |s| <= |d|
  {
    if s == [] then []
    else (if s[0] == quote then [quote, quote] else [s[0]]) + Doubled(s[1..], quote)
  }

  lemma {:induction false} DoubledAppend(a: string, b: string, quote: char := QUOTE)
    ensures Doubled(a + b, quote) == Doubled(a, quote) + Doubled(b, quote)
  {
    if a == [] {
      assert a + b == b;
    } else {
      assert (a + b)[1..] == a[1..] + b;
      DoubledAppend(a[1..], b, quote);
    }
  }

  lemma {:induction false} DoubledPlain(s: string, quote: char := QUOTE)
    requires quote !in s
    ensures Doubled(s, quote) == s
  {
    if s != [] {
      DoubledPlain(s[1..], quote);
    }
  }

  /** How many leading characters can be written, one by one, before the doubled form would exceed the budget. */
  function Fit(s: string, budget: nat): (n: nat)
    ensures n <= |s|
  {
    var cost := if s != [] && s[0] == QUOTE then 2 else 1;
    if s == [] || cost > budget then 0 else 1 + Fit(s[1..], budget - cost)
  }

  /** `Fit` is the longest prefix whose doubled form keeps within the budget. */
  lemma {:induction false} FitLongest(s: string, budget: nat, n: nat)
    requires n <= |s|
    ensures n <= Fit(s, budget) <==> |Doubled(s[..n])| <= budget
  {
    if n > 0 {
      var cost := if s[0] == QUOTE then 2 else 1;
      assert s[..n][1..] == s[1..][..n - 1];
      if cost <= budget {
        FitLongest(s[1..], budget - cost, n - 1);
      }
    }
  }

  lemma {:induction false} FitAppend(a: string, b: string, budget: nat)
    ensures Fit(a, budget) == |a| ==> |Doubled(a)| <= budget
    ensures Fit(a + b, budget) == if Fit(a, budget) == |a| then |a| + Fit(b, budget - |Doubled(a)|) else Fit(a, budget)
  {
    if a == [] {
      assert a + b == b;
    } else {
      assert (a + b)[1..] == a[1..] + b;
      var cost := if a[0] == QUOTE then 2 else 1;
      if cost <= budget {
        FitAppend(a[1..], b, budget - cost);
      }
    }
  }

  /** Plain characters cost one each. */
  lemma {:induction false} FitPlain(s: string, budget: nat)
    requires QUOTE !in s
    ensures Fit(s, budget) == if |s| <= budget then |s| else budget
  {
    if s != [] && budget > 0 {
      FitPlain(s[1..], budget - 1);
    }
  }
}
