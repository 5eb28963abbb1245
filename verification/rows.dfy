/** Tables as sequences of rows in insertion order, with the two
    operations the result stores share: "insert unless an equal row exists"
    (a `filter_by(...).count() == 0` guard on every column), the listing
    of rows matching a predicate and the listing of one column. */
module Rows {
  import Seqs

  /** No row occurs twice. */
  ghost predicate NoDuplicates<T>(rows: seq<T>) {
    forall i, j :: 0 <= i < j < |rows| ==> rows[i] != rows[j]
  }

  /** Appends `x` unless an equal row is already present. */
  function InsertIfAbsent<T(==,!new)>(rows: seq<T>, x: T): (r: seq<T>)
    ensures x in r
    ensures x in rows ==> r == rows
    ensures x !in rows ==> r == rows + [x]
    ensures forall y :: y in r <==> y in rows || y == x
    ensures NoDuplicates(rows) ==> NoDuplicates(r)
  {
    if x in rows then rows else rows + [x]
  }

  /** The table after inserting each of `xs` in turn. */
  function InsertAll<T(==,!new)>(rows: seq<T>, xs: seq<T>): (r: seq<T>)
    ensures forall y :: y in r <==> y in rows || y in xs
    decreases |xs|
  {
    if |xs| == 0 then rows
    else
      var r := InsertAll(InsertIfAbsent(rows, xs[0]), xs[1..]);
      assert forall y :: y in xs <==> y == xs[0] || y in xs[1..] by {
        assert xs == [xs[0]] + xs[1..];
      }
      r
  }

  lemma {:induction false} InsertAllKeepsNoDuplicates<T(!new)>(rows: seq<T>, xs: seq<T>)
    requires NoDuplicates(rows)
    ensures NoDuplicates(InsertAll(rows, xs))
    decreases |xs|
  {
    if |xs| > 0 {
      InsertAllKeepsNoDuplicates(InsertIfAbsent(rows, xs[0]), xs[1..]);
    }
  }

  /** The rows satisfying `p`, in table order. */
  function Select<T(!new)>(rows: seq<T>, p: T -> bool): (r: seq<T>)
    ensures forall y :: y in r <==> y in rows && p(y)
  {
    forall y ensures y in Seqs.Filter(p, rows) <==> y in rows && p(y) {
      Seqs.FilterMembership(p, rows, y);
    }
    Seqs.Filter(p, rows)
  }

  /** One column of the table, row by row. */
  function Column<T, U>(rows: seq<T>, f: T -> U): (r: seq<U>)
    ensures |r| == |rows| && forall i :: 0 <= i < |rows| ==> r[i] == f(rows[i])
  {
    seq(|rows|, i requires 0 <= i < |rows| => f(rows[i]))
  }
}
