/** Strict total orders and the "distinct, sorted" listing built on them.

    `SELECT DISTINCT … ORDER BY` in the stores and `sort()` followed by
    `itertools.groupby` in the label tool both produce the strictly ascending
    list of the distinct values; `SortDistinct` is that listing.
 */
module Ordering {

  ghost predicate Irreflexive<T(!new)>(lt: (T, T) -> bool) {
    forall a :: !lt(a, a)
  }

  ghost predicate Transitive<T(!new)>(lt: (T, T) -> bool) {
    forall a, b, c :: lt(a, b) && lt(b, c) ==> lt(a, c)
  }

  ghost predicate Trichotomous<T(!new)>(lt: (T, T) -> bool) {
    forall a, b :: a == b || lt(a, b) || lt(b, a)
  }

  ghost predicate StrictTotalOrder<T(!new)>(lt: (T, T) -> bool) {
    Irreflexive(lt) && Transitive(lt) && Trichotomous(lt)
  }

  /** The set of elements of a list. */
  function Elems<T>(s: seq<T>): set<T> {
    set x | x in s
  }

  lemma HeadInElems<T>(s: seq<T>)
    requires |s| > 0
    ensures s[0] in Elems(s)
  {
  }

  ghost predicate StrictlySorted<T>(lt: (T, T) -> bool, s: seq<T>) {
    forall i, j :: 0 <= i < j < |s| ==> lt(s[i], s[j])
  }

  /** Inserts `x` into a strictly ascending list unless it is already there. */
  function InsertDistinct<T(==,!new)>(lt: (T, T) -> bool, x: T, s: seq<T>): (r: seq<T>)
    requires StrictTotalOrder(lt)
    requires StrictlySorted(lt, s)
    ensures StrictlySorted(lt, r)
    ensures Elems(r) == Elems(s) + {x}
    ensures x in s ==> r == s
  {
    if |s| == 0 then [x]
    else if x == s[0] then s
    else if lt(x, s[0]) then
      assert forall j :: 0 < j < |s| ==> lt(x, s[j]);
      [x] + s
    else
      var rest := InsertDistinct(lt, x, s[1..]);
      InsertDistinctStep(lt, x, s, rest);
      [s[0]] + rest
  }

  /** A head below every element of a strictly ascending list keeps it
      strictly ascending. */
  lemma StrictlySortedCons<T>(lt: (T, T) -> bool, y: T, s: seq<T>)
    requires StrictlySorted(lt, s)
    requires forall j :: 0 <= j < |s| ==> lt(y, s[j])
    ensures StrictlySorted(lt, [y] + s)
  {
    var r := [y] + s;
    assert forall i :: 1 <= i < |r| ==> r[i] == s[i - 1];
  }

  lemma ElemsCons<T>(y: T, s: seq<T>)
    ensures Elems([y] + s) == {y} + Elems(s)
  {
  }

  /** The recursive case of `InsertDistinct`: `x` goes after the head. */
  lemma InsertDistinctStep<T(!new)>(lt: (T, T) -> bool, x: T, s: seq<T>, rest: seq<T>)
    requires StrictTotalOrder(lt)
    requires StrictlySorted(lt, s) && |s| > 0 && x != s[0] && !lt(x, s[0])
    requires StrictlySorted(lt, rest) && Elems(rest) == Elems(s[1..]) + {x}
    requires x in s[1..] ==> rest == s[1..]
    ensures StrictlySorted(lt, [s[0]] + rest)
    ensures Elems([s[0]] + rest) == Elems(s) + {x}
    ensures x in s ==> [s[0]] + rest == s
  {
    assert lt(s[0], x);
    forall j | 0 <= j < |rest| ensures lt(s[0], rest[j]) {
      assert rest[j] in Elems(rest);
      if rest[j] != x {
        var k :| 0 <= k < |s| - 1 && s[1..][k] == rest[j];
        assert s[k + 1] == rest[j];
      }
    }
    StrictlySortedCons(lt, s[0], rest);
    ElemsCons(s[0], rest);
    ElemsCons(s[0], s[1..]);
    assert s == [s[0]] + s[1..];
  }

  /** The distinct elements of `s` in strictly ascending order. */
  function SortDistinct<T(==,!new)>(lt: (T, T) -> bool, s: seq<T>): (r: seq<T>)
    requires StrictTotalOrder(lt)
    ensures StrictlySorted(lt, r)
    ensures Elems(r) == Elems(s)
  {
    if |s| == 0 then []
    else
      var r := InsertDistinct(lt, s[|s| - 1], SortDistinct(lt, s[..|s| - 1]));
      assert Elems(s) == Elems(s[..|s| - 1]) + {s[|s| - 1]};
      r
  }

  /** A strictly ascending list is determined by its set of elements, so any
      two ways of listing the distinct values in order agree. */
  lemma {:induction false} StrictlySortedUnique<T(!new)>(lt: (T, T) -> bool, a: seq<T>, b: seq<T>)
    requires StrictTotalOrder(lt)
    requires StrictlySorted(lt, a) && StrictlySorted(lt, b)
    requires Elems(a) == Elems(b)
    ensures a == b
  {
    if |a| == 0 && |b| > 0 {
      HeadInElems(b);
      assert false;
    } else if |a| > 0 && |b| == 0 {
      HeadInElems(a);
      assert false;
    } else if |a| > 0 {
      assert a[0] in Elems(b);
      assert b[0] in Elems(a);
      var ia :| 0 <= ia < |b| && b[ia] == a[0];
      var ib :| 0 <= ib < |a| && a[ib] == b[0];
      assert a[0] == b[0];
      forall y | y in Elems(a[1..]) ensures y in Elems(b[1..]) {
        var k :| 0 <= k < |a| - 1 && a[1..][k] == y;
        assert lt(a[0], y);
        assert y in Elems(b);
        var m :| 0 <= m < |b| && b[m] == y;
        assert m != 0;
        assert b[1..][m - 1] == y;
      }
      forall y | y in Elems(b[1..]) ensures y in Elems(a[1..]) {
        var k :| 0 <= k < |b| - 1 && b[1..][k] == y;
        assert lt(b[0], y);
        assert y in Elems(a);
        var m :| 0 <= m < |a| && a[m] == y;
        assert m != 0;
        assert a[1..][m - 1] == y;
      }
      StrictlySortedUnique(lt, a[1..], b[1..]);
      assert a == [a[0]] + a[1..];
      assert b == [b[0]] + b[1..];
    }
  }
}
