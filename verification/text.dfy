/** Strings as the pipeline uses them: Python's `str(int)` / `int(str)` for
    class ids and run numbers, and the code-point order SQLite's default
    collation applies to `ORDER BY` on text columns. */
module Text {
  import opened Wrappers
  import Ordering

  predicate IsDigit(c: char) {
    '0' <= c <= '9'
  }

  function DigitValue(c: char): nat
    requires IsDigit(c)
  {
    (c - '0') as nat
  }

  function DigitChar(d: nat): (c: char)
    requires d < 10
    ensures IsDigit(c) && DigitValue(c) == d
  {
    ('0' as int + d) as char
  }

  /** Decimal digits of a natural number, most significant first, without
      leading zeros (Python `str(n)` for `n >= 0`). */
  function NatToString(n: nat): (s: string)
    ensures |s| > 0
    ensures forall i :: 0 <= i < |s| ==> IsDigit(s[i])
  {
    if n < 10 then [DigitChar(n)] else NatToString(n / 10) + [DigitChar(n % 10)]
  }

  /** Python `str(n)` for an int. */
  function IntToString(n: int): string
  {
    if n < 0 then "-" + NatToString(-n) else NatToString(n)
  }

  /** The value of a non-empty string of decimal digits. */
  function DigitsValue(s: string): nat
    requires |s| > 0 && forall i :: 0 <= i < |s| ==> IsDigit(s[i])
  {
    if |s| == 1 then DigitValue(s[0])
    else DigitsValue(s[..|s| - 1]) * 10 + DigitValue(s[|s| - 1])
  }

  predicate AllDigits(s: string) {
    |s| > 0 && forall i :: 0 <= i < |s| ==> IsDigit(s[i])
  }

  /** Python `int(s)` restricted to an optional sign followed by decimal
      digits; anything else is the ValueError `int()` raises. */
  function ParseInt(s: string): (r: Result<int>)
    ensures r.Ok? <==> AllDigits(s) || (|s| > 0 && (s[0] == '-' || s[0] == '+') && AllDigits(s[1..]))
  {
    if AllDigits(s) then Ok(DigitsValue(s))
    else if |s| > 0 && s[0] == '-' && AllDigits(s[1..]) then Ok(-(DigitsValue(s[1..]) as int))
    else if |s| > 0 && s[0] == '+' && AllDigits(s[1..]) then Ok(DigitsValue(s[1..]))
    else Err(ValueError("invalid literal for int()"))
  }

  lemma {:induction false} NatRoundTrip(n: nat)
    ensures DigitsValue(NatToString(n)) == n
  {
    if n >= 10 {
      var s := NatToString(n);
      assert s[..|s| - 1] == NatToString(n / 10);
      NatRoundTrip(n / 10);
    }
  }

  /** Reading back what `str` wrote gives the same integer. */
  lemma IntRoundTrip(n: int)
    ensures ParseInt(IntToString(n)) == Ok(n)
  {
    if n < 0 {
      NatRoundTrip(-n);
      var s := IntToString(n);
      assert s[1..] == NatToString(-n);
      assert !AllDigits(s) by { assert !IsDigit(s[0]); }
    } else {
      NatRoundTrip(n);
    }
  }

  /** Lexicographic order on code points: a proper prefix comes first. */
  predicate StrLess(a: string, b: string)
    decreases |a|
  {
    if |a| == 0 then |b| > 0
    else if |b| == 0 then false
    else if a[0] < b[0] then true
    else if a[0] == b[0] then StrLess(a[1..], b[1..])
    else false
  }

  lemma {:induction false} StrLessIrreflexive(a: string)
    ensures !StrLess(a, a)
    decreases |a|
  {
    if |a| > 0 {
      StrLessIrreflexive(a[1..]);
    }
  }

  lemma {:induction false} StrLessTransitive(a: string, b: string, c: string)
    requires StrLess(a, b) && StrLess(b, c)
    ensures StrLess(a, c)
    decreases |a|
  {
    if |a| > 0 && a[0] == b[0] && b[0] == c[0] {
      StrLessTransitive(a[1..], b[1..], c[1..]);
    }
  }

  lemma {:induction false} StrLessTrichotomous(a: string, b: string)
    ensures a == b || StrLess(a, b) || StrLess(b, a)
    decreases |a|
  {
    if |a| > 0 && |b| > 0 && a[0] == b[0] {
      StrLessTrichotomous(a[1..], b[1..]);
      if a[1..] == b[1..] {
        assert a == [a[0]] + a[1..] && b == [b[0]] + b[1..];
      }
    }
  }

  /** The string order is a strict total order, so the distinct-sorted
      listing of `Ordering` applies to paths. */
  lemma StrLessIsStrictTotal()
    ensures Ordering.StrictTotalOrder(StrLess)
  {
    forall a ensures !StrLess(a, a) {
      StrLessIrreflexive(a);
    }
    forall a, b, c | StrLess(a, b) && StrLess(b, c) ensures StrLess(a, c) {
      StrLessTransitive(a, b, c);
    }
    forall a, b ensures a == b || StrLess(a, b) || StrLess(b, a) {
      StrLessTrichotomous(a, b);
    }
  }

  /** `SELECT DISTINCT s ... ORDER BY s` on a text column: the distinct
      strings in ascending order. */
  function SortedDistinct(ss: seq<string>): (r: seq<string>)
    ensures Ordering.StrictlySorted(StrLess, r)
    ensures Ordering.Elems(r) == Ordering.Elems(ss)
  {
    StrLessIsStrictTotal();
    Ordering.SortDistinct(StrLess, ss)
  }

  /** The listing is the only ascending duplicate-free list of those strings. */
  lemma SortedDistinctUnique(ss: seq<string>, other: seq<string>)
    requires Ordering.StrictlySorted(StrLess, other)
    requires Ordering.Elems(other) == Ordering.Elems(ss)
    ensures other == SortedDistinct(ss)
  {
    StrLessIsStrictTotal();
    Ordering.StrictlySortedUnique(StrLess, other, SortedDistinct(ss));
  }

  /** Python `os.path.split(p)[1]`: the part after the last '/'. */
  function BaseName(p: string): (r: string)
    ensures |r| <= |p| && r == p[|p| - |r|..]
    ensures '/' !in r
    ensures |r| < |p| ==> p[|p| - |r| - 1] == '/'
  {
    if |p| == 0 then ""
    else if p[|p| - 1] == '/' then ""
    else BaseName(p[..|p| - 1]) + [p[|p| - 1]]
  }
}
