/** The merge loop of `condense_votings` (wolf_utils/analysis_helper.py),
    stated over any element type: `score` is the pairwise overlap (a
    failing score is the exception it raises) and `merge` builds the
    replacement of a pair. `Analysis` instantiates it with IoU and
    `bbox_union`.

    One pass visits the pairs in `itertools.combinations` order, merges
    every pair whose score exceeds the threshold, and keeps the elements
    that took part in no such pair. Passes repeat until one merges nothing.
 */
module Merging {
  import opened Wrappers
  import Seqs

  /** (p, q) is a pair of `combinations(range(n), 2)` at or after (i, j). */
  predicate PairFrom(n: nat, i: nat, j: nat, p: nat, q: nat) {
    p < q < n && (p > i || (p == i && q >= j))
  }

  /** The order in which `combinations` visits pairs. */
  predicate PairLess(a: (nat, nat), b: (nat, nat)) {
    a.0 < b.0 || (a.0 == b.0 && a.1 < b.1)
  }

  /** The pair (p, q) is scored without error and above the threshold. */
  predicate Qualifies<T>(score: (T, T) -> Result<real>, l: seq<T>, t: real, p: nat, q: nat)
    requires p < |l| && q < |l|
  {
    score(l[p], l[q]).Ok? && score(l[p], l[q]).value > t
  }

  /** Every pair at or after (i, j) scores without error. */
  ghost predicate AllScored<T>(score: (T, T) -> Result<real>, l: seq<T>, i: nat, j: nat) {
    forall p: nat, q: nat :: PairFrom(|l|, i, j, p, q) ==> score(l[p], l[q]).Ok?
  }

  /** Some pair at or after (i, j) fails to score with error `e`. */
  ghost predicate FailsWith<T>(score: (T, T) -> Result<real>, l: seq<T>, i: nat, j: nat, e: Error) {
    exists p: nat, q: nat :: PairFrom(|l|, i, j, p, q) && score(l[p], l[q]) == Err(e)
  }

  /** `pairs` lists exactly the qualifying pairs at or after (i, j), in
      visiting order. */
  ghost predicate ListsQualifying<T>(score: (T, T) -> Result<real>, l: seq<T>, t: real, i: nat, j: nat, pairs: seq<(nat, nat)>) {
    (forall k :: 0 <= k < |pairs| ==>
      PairFrom(|l|, i, j, pairs[k].0, pairs[k].1) && Qualifies(score, l, t, pairs[k].0, pairs[k].1)) &&
    (forall p: nat, q: nat :: PairFrom(|l|, i, j, p, q) && Qualifies(score, l, t, p, q) ==> (p, q) in pairs) &&
    (forall k1, k2 :: 0 <= k1 < k2 < |pairs| ==> PairLess(pairs[k1], pairs[k2]))
  }

  /** Past the end of row i, the pairs left are those from row i + 1 on. */
  lemma NextRow<T>(score: (T, T) -> Result<real>, l: seq<T>, t: real, i: nat, j: nat, r: Result<seq<(nat, nat)>>)
    requires i < j && j >= |l|
    requires r.Ok? <==> AllScored(score, l, i + 1, i + 2)
    requires r.Err? ==> FailsWith(score, l, i + 1, i + 2, r.error)
    requires r.Ok? ==> ListsQualifying(score, l, t, i + 1, i + 2, r.value)
    ensures r.Ok? <==> AllScored(score, l, i, j)
    ensures r.Err? ==> FailsWith(score, l, i, j, r.error)
    ensures r.Ok? ==> ListsQualifying(score, l, t, i, j, r.value)
  {
    assert forall p: nat, q: nat :: PairFrom(|l|, i, j, p, q) <==> PairFrom(|l|, i + 1, i + 2, p, q);
  }

  /** Within row i, the pairs left are (i, j) and those after it; (i, j)
      itself scores without error. */
  lemma NextColumn<T>(score: (T, T) -> Result<real>, l: seq<T>, t: real, i: nat, j: nat, r: Result<seq<(nat, nat)>>)
    requires i < j < |l| && score(l[i], l[j]).Ok?
    requires r.Ok? <==> AllScored(score, l, i, j + 1)
    requires r.Err? ==> FailsWith(score, l, i, j + 1, r.error)
    requires r.Ok? ==> ListsQualifying(score, l, t, i, j + 1, r.value)
    ensures r.Ok? <==> AllScored(score, l, i, j)
    ensures r.Err? ==> FailsWith(score, l, i, j, r.error)
    ensures r.Ok? && Qualifies(score, l, t, i, j) ==> ListsQualifying(score, l, t, i, j, [(i, j)] + r.value)
    ensures r.Ok? && !Qualifies(score, l, t, i, j) ==> ListsQualifying(score, l, t, i, j, r.value)
  {
    assert forall p: nat, q: nat :: PairFrom(|l|, i, j, p, q) <==> (p == i && q == j) || PairFrom(|l|, i, j + 1, p, q);
    if r.Ok? && Qualifies(score, l, t, i, j) {
      var s := [(i, j)] + r.value;
      assert forall k :: 0 < k < |s| ==> s[k] == r.value[k - 1];
    }
  }

  /** The qualifying pairs from (i, j) on, in visiting order. Every pair is
      scored, so the first failing score aborts the pass. */
  function PairsFrom<T>(score: (T, T) -> Result<real>, l: seq<T>, t: real, i: nat, j: nat)
    : (r: Result<seq<(nat, nat)>>)
    requires i < j
    ensures r.Ok? <==> AllScored(score, l, i, j)
    ensures r.Err? ==> FailsWith(score, l, i, j, r.error)
    ensures r.Ok? ==> ListsQualifying(score, l, t, i, j, r.value)
    decreases |l| - i, |l| - j
  {
    if i >= |l| then Ok([])
    else if j >= |l| then
      var r := PairsFrom(score, l, t, i + 1, i + 2);
      NextRow(score, l, t, i, j, r);
      r
    else if score(l[i], l[j]).Err? then
      assert PairFrom(|l|, i, j, i, j);
      Err(score(l[i], l[j]).error)
    else
      var rest := PairsFrom(score, l, t, i, j + 1);
      NextColumn(score, l, t, i, j, rest);
      if rest.Err? then rest
      else if score(l[i], l[j]).value > t then Ok([(i, j)] + rest.value)
      else Ok(rest.value)
  }

  lemma AllPairsFrom(n: nat)
    ensures forall p: nat, q: nat :: p < q < n <==> PairFrom(n, 0, 1, p, q)
  {
  }

  /** All qualifying pairs of one pass, in visiting order. */
  function QualifyingPairs<T>(score: (T, T) -> Result<real>, l: seq<T>, t: real): (r: Result<seq<(nat, nat)>>)
    ensures r.Ok? <==> forall p: nat, q: nat :: p < q < |l| ==> score(l[p], l[q]).Ok?
    ensures r.Ok? ==> forall k :: 0 <= k < |r.value| ==>
      r.value[k].0 < r.value[k].1 < |l| && Qualifies(score, l, t, r.value[k].0, r.value[k].1)
    ensures r.Ok? ==> forall p: nat, q: nat :: p < q < |l| && Qualifies(score, l, t, p, q) ==> (p, q) in r.value
  {
    AllPairsFrom(|l|);
    PairsFrom(score, l, t, 0, 1)
  }

  predicate InBounds(n: nat, pairs: seq<(nat, nat)>) {
    forall k :: 0 <= k < |pairs| ==> pairs[k].0 < n && pairs[k].1 < n
  }

  /** The elements that took part in some qualifying pair (Python's
      `combined_boxes`, used only for membership). */
  function Combined<T(!new)>(l: seq<T>, pairs: seq<(nat, nat)>): (r: set<T>)
    requires InBounds(|l|, pairs)
    ensures forall k :: 0 <= k < |pairs| ==> l[pairs[k].0] in r && l[pairs[k].1] in r
    ensures forall x :: x in r ==> exists k :: 0 <= k < |pairs| && (x == l[pairs[k].0] || x == l[pairs[k].1])
  {
    (set k | 0 <= k < |pairs| :: l[pairs[k].0]) + (set k | 0 <= k < |pairs| :: l[pairs[k].1])
  }

  /** The merged elements of one pass, one per qualifying pair, in pair order. */
  function Merged<T>(merge: (T, T) -> T, l: seq<T>, pairs: seq<(nat, nat)>): (r: seq<T>)
    requires InBounds(|l|, pairs)
    ensures |r| == |pairs|
    ensures forall k :: 0 <= k < |pairs| ==> r[k] == merge(l[pairs[k].0], l[pairs[k].1])
  {
    seq(|pairs|, k requires 0 <= k < |pairs| => merge(l[pairs[k].0], l[pairs[k].1]))
  }

  /** The elements of `l` equal to no member of a qualifying pair, in order. */
  function Kept<T(==,!new)>(l: seq<T>, pairs: seq<(nat, nat)>): (r: seq<T>)
    requires InBounds(|l|, pairs)
    ensures forall x :: x in r <==> x in l && x !in Combined(l, pairs)
  {
    var combined := Combined(l, pairs);
    forall x ensures x in Seqs.Filter(e => e !in combined, l) <==> x in l && x !in combined {
      Seqs.FilterMembership(e => e !in combined, l, x);
    }
    Seqs.Filter(e => e !in combined, l)
  }

  /** One pass of the `while True` loop: whether anything was merged, and
      the merged elements (in pair order) followed by the kept ones. */
  function Pass<T(==,!new)>(score: (T, T) -> Result<real>, merge: (T, T) -> T, l: seq<T>, t: real)
    : (r: Result<(bool, seq<T>)>)
    ensures r.Ok? <==> forall p: nat, q: nat :: p < q < |l| ==> score(l[p], l[q]).Ok?
    ensures r.Ok? ==> (r.value.0 <==> exists p: nat, q: nat :: p < q < |l| && Qualifies(score, l, t, p, q))
  {
    var pr := QualifyingPairs(score, l, t);
    if pr.Err? then Err(pr.error)
    else
      var pairs := pr.value;
      assert |pairs| > 0 ==> Qualifies(score, l, t, pairs[0].0, pairs[0].1);
      Ok((|pairs| > 0, Merged(merge, l, pairs) + Kept(l, pairs)))
  }

  /** Every qualifying pair of a pass is merged, not only the first one. */
  lemma PassMergesEveryPair<T(!new)>(score: (T, T) -> Result<real>, merge: (T, T) -> T, l: seq<T>, t: real, p: nat, q: nat)
    requires Pass(score, merge, l, t).Ok?
    requires p < q < |l| && Qualifies(score, l, t, p, q)
    ensures merge(l[p], l[q]) in Pass(score, merge, l, t).value.1
  {
    var pairs := QualifyingPairs(score, l, t).value;
    var k :| 0 <= k < |pairs| && pairs[k] == (p, q);
    var m := Merged(merge, l, pairs);
    assert m[k] == merge(l[p], l[q]);
    assert Pass(score, merge, l, t).value.1 == m + Kept(l, pairs);
  }

  /** Every element after a pass is either the merge of a qualifying pair or
      an input element that took part in no qualifying pair. */
  lemma PassOutputOrigin<T(!new)>(score: (T, T) -> Result<real>, merge: (T, T) -> T, l: seq<T>, t: real, e: T)
    requires Pass(score, merge, l, t).Ok? && e in Pass(score, merge, l, t).value.1
    ensures || (exists p: nat, q: nat :: p < q < |l| && Qualifies(score, l, t, p, q) && e == merge(l[p], l[q]))
            || (e in l && forall p: nat, q: nat :: p < q < |l| && Qualifies(score, l, t, p, q) ==> e != l[p] && e != l[q])
  {
    var pairs := QualifyingPairs(score, l, t).value;
    var m := Merged(merge, l, pairs);
    assert Pass(score, merge, l, t).value.1 == m + Kept(l, pairs);
    if e in m {
      MergedFromPair(score, merge, l, t, pairs, e);
    } else {
      KeptTookNoPart(score, l, t, pairs, e);
    }
  }

  lemma MergedFromPair<T(!new)>(score: (T, T) -> Result<real>, merge: (T, T) -> T, l: seq<T>, t: real, pairs: seq<(nat, nat)>, e: T)
    requires QualifyingPairs(score, l, t) == Ok(pairs)
    requires e in Merged(merge, l, pairs)
    ensures exists p: nat, q: nat :: p < q < |l| && Qualifies(score, l, t, p, q) && e == merge(l[p], l[q])
  {
    var k :| 0 <= k < |pairs| && Merged(merge, l, pairs)[k] == e;
    var p, q := pairs[k].0, pairs[k].1;
    assert p < q < |l| && Qualifies(score, l, t, p, q) && e == merge(l[p], l[q]);
  }

  lemma KeptTookNoPart<T(!new)>(score: (T, T) -> Result<real>, l: seq<T>, t: real, pairs: seq<(nat, nat)>, e: T)
    requires QualifyingPairs(score, l, t) == Ok(pairs)
    requires e in Kept(l, pairs)
    ensures e in l && forall p: nat, q: nat :: p < q < |l| && Qualifies(score, l, t, p, q) ==> e != l[p] && e != l[q]
  {
    forall p: nat, q: nat | p < q < |l| && Qualifies(score, l, t, p, q) ensures e != l[p] && e != l[q] {
      var k :| 0 <= k < |pairs| && pairs[k] == (p, q);
    }
  }

  /** A pass that merged nothing returns its input unchanged. */
  lemma PassUnchanged<T(!new)>(score: (T, T) -> Result<real>, merge: (T, T) -> T, l: seq<T>, t: real)
    requires Pass(score, merge, l, t).Ok? && !Pass(score, merge, l, t).value.0
    ensures Pass(score, merge, l, t).value.1 == l
  {
    var pairs := QualifyingPairs(score, l, t).value;
    assert pairs == [];
    var combined := Combined(l, pairs);
    assert combined == {};
    Seqs.FilterAll(e => e !in combined, l);
  }

  /** No two elements of `l` score above `t`, and every score is defined. */
  predicate Separated<T>(score: (T, T) -> Result<real>, l: seq<T>, t: real) {
    forall p: nat, q: nat :: p < q < |l| ==> score(l[p], l[q]).Ok? && score(l[p], l[q]).value <= t
  }

  /** The `while True` loop, run for at most `fuel` passes. The loop stops
      only after a pass that merged nothing; a run that needs more passes
      than `fuel` is `NotConverged` (the source loops on). */
  function Cluster<T(==,!new)>(score: (T, T) -> Result<real>, merge: (T, T) -> T, l: seq<T>, t: real, fuel: nat)
    : (r: Result<seq<T>>)
    ensures r.Ok? ==> Separated(score, r.value, t)
    decreases fuel
  {
    if fuel == 0 then Err(NotConverged)
    else
      var pass := Pass(score, merge, l, t);
      if pass.Err? then Err(pass.error)
      else if !pass.value.0 then
        assert Separated(score, l, t) by {
          forall p: nat, q: nat | p < q < |l| ensures score(l[p], l[q]).Ok? && score(l[p], l[q]).value <= t {
            assert !Qualifies(score, l, t, p, q);
          }
        }
        Ok(l)
      else Cluster(score, merge, pass.value.1, t, fuel - 1)
  }

  /** An already separated list is a fixpoint: one pass returns it. */
  lemma ClusterOfSeparated<T(!new)>(score: (T, T) -> Result<real>, merge: (T, T) -> T, l: seq<T>, t: real, fuel: nat)
    requires Separated(score, l, t) && fuel > 0
    ensures Cluster(score, merge, l, t, fuel) == Ok(l)
  {
    var p := Pass(score, merge, l, t);
    assert p.Ok?;
    assert !p.value.0;
  }

  /** Re-clustering the output of a successful run returns it unchanged. */
  lemma ClusterIdempotent<T(!new)>(score: (T, T) -> Result<real>, merge: (T, T) -> T, l: seq<T>, t: real, fuel: nat, fuel': nat)
    requires Cluster(score, merge, l, t, fuel).Ok? && fuel' > 0
    ensures Cluster(score, merge, Cluster(score, merge, l, t, fuel).value, t, fuel') == Cluster(score, merge, l, t, fuel)
  {
    ClusterOfSeparated(score, merge, Cluster(score, merge, l, t, fuel).value, t, fuel');
  }
}
