/** Sequence helpers used by several modules: concatenation of a list of
    lists, order-preserving filtering, and counting unset flags. */
module Seqs {

  /** The concatenation of all lists in `ss`, in order. */
  function Flatten<T>(ss: seq<seq<T>>): seq<T>
  {
    if |ss| == 0 then [] else Flatten(ss[..|ss| - 1]) + ss[|ss| - 1]
  }

  lemma {:induction false} FlattenConcat<T>(a: seq<seq<T>>, b: seq<seq<T>>)
    ensures Flatten(a + b) == Flatten(a) + Flatten(b)
    decreases |b|
  {
    if |b| == 0 {
      assert a + b == a;
    } else {
      var b' := b[..|b| - 1];
      assert (a + b)[..|a + b| - 1] == a + b';
      FlattenConcat(a, b');
    }
  }

  lemma FlattenCons<T>(x: seq<T>, rest: seq<seq<T>>)
    ensures Flatten([x] + rest) == x + Flatten(rest)
  {
    FlattenConcat([x], rest);
    assert [x][..0] == [];
  }

  lemma FlattenSnoc<T>(rest: seq<seq<T>>, x: seq<T>)
    ensures Flatten(rest + [x]) == Flatten(rest) + x
  {
    assert (rest + [x])[..|rest|] == rest;
  }

  /** Every element of a non-empty list satisfies `p` exactly when every
      element but the last does and the last does too. */
  lemma AllSnoc<T>(p: T -> bool, init: seq<T>, s: seq<T>)
    requires |s| > 0 && init == s[..|s| - 1]
    ensures (forall i :: 0 <= i < |s| ==> p(s[i])) <==>
      (forall i :: 0 <= i < |init| ==> p(init[i])) && p(s[|s| - 1])
  {
    assert forall i :: 0 <= i < |init| ==> init[i] == s[i];
  }

  /** Total number of elements over all lists. */
  function SumLengths<T>(ss: seq<seq<T>>): nat
  {
    if |ss| == 0 then 0 else SumLengths(ss[..|ss| - 1]) + |ss[|ss| - 1]|
  }

  lemma {:induction false} FlattenLength<T>(ss: seq<seq<T>>)
    ensures |Flatten(ss)| == SumLengths(ss)
  {
    if |ss| > 0 {
      FlattenLength(ss[..|ss| - 1]);
    }
  }

  /** The elements of `s` that satisfy `p`, in their original order. */
  function Filter<T>(p: T -> bool, s: seq<T>): (r: seq<T>)
    ensures |r| <= |s|
    ensures forall i :: 0 <= i < |r| ==> p(r[i])
  {
    if |s| == 0 then []
    else if p(s[0]) then [s[0]] + Filter(p, s[1..])
    else Filter(p, s[1..])
  }

  lemma {:induction false} FilterConcat<T>(p: T -> bool, a: seq<T>, b: seq<T>)
    ensures Filter(p, a + b) == Filter(p, a) + Filter(p, b)
  {
    if |a| > 0 {
      assert (a + b)[1..] == a[1..] + b;
      FilterConcat(p, a[1..], b);
    } else {
      assert a + b == b;
    }
  }

  lemma {:induction false} FilterMembership<T>(p: T -> bool, s: seq<T>, x: T)
    ensures x in Filter(p, s) <==> x in s && p(x)
  {
    if |s| > 0 {
      FilterMembership(p, s[1..], x);
      assert s == [s[0]] + s[1..];
    }
  }

  lemma {:induction false} FilterAll<T>(p: T -> bool, s: seq<T>)
    requires forall i :: 0 <= i < |s| ==> p(s[i])
    ensures Filter(p, s) == s
  {
    if |s| > 0 {
      FilterAll(p, s[1..]);
    }
  }

  /** Filtering with two predicates that agree on the list gives the same list. */
  lemma {:induction false} FilterCongruent<T>(p: T -> bool, q: T -> bool, s: seq<T>)
    requires forall i :: 0 <= i < |s| ==> p(s[i]) == q(s[i])
    ensures Filter(p, s) == Filter(q, s)
  {
    if |s| > 0 {
      FilterCongruent(p, q, s[1..]);
    }
  }

  /** Number of `false` entries. */
  function CountFalse(s: seq<bool>): nat {
    if |s| == 0 then 0 else (if s[0] then 0 else 1) + CountFalse(s[1..])
  }

  lemma {:induction false} CountFalseMark(s: seq<bool>, j: nat)
    requires j < |s| && !s[j]
    ensures CountFalse(s[j := true]) == CountFalse(s) - 1
  {
    if j > 0 {
      assert s[j := true][1..] == s[1..][j - 1 := true];
      CountFalseMark(s[1..], j - 1);
    }
  }
}
