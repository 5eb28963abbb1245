/** The time-gap batching shared by src/Batching/TimeBatching.py and
    src/batching/ImageBatching.py: entries are stably sorted by timestamp,
    then cut wherever two consecutive timestamps are more than the allowed
    gap apart. Timestamps are whole seconds. */
module Batching {
  import Seqs

  /** An entry with its timestamp. */
  datatype Stamped<T> = Stamped(item: T, t: int)

  predicate SortedByTime<T>(s: seq<Stamped<T>>) {
    forall i, j :: 0 <= i < j < |s| ==> s[i].t <= s[j].t
  }

  /** Inserts `x` before the first entry that is not earlier, so entries
      with equal timestamps keep their order. */
  function Insert<T>(x: Stamped<T>, s: seq<Stamped<T>>): (r: seq<Stamped<T>>)
    requires SortedByTime(s)
    ensures multiset(r) == multiset(s) + multiset{x}
    ensures SortedByTime(r)
  {
    if |s| == 0 || x.t <= s[0].t then
      SortedCons(x, s);
      [x] + s
    else
      var rest := Insert(x, s[1..]);
      assert s == [s[0]] + s[1..];
      forall j | 0 <= j < |rest| ensures s[0].t <= rest[j].t {
        assert rest[j] in multiset(rest);
      }
      SortedCons(s[0], rest);
      [s[0]] + rest
  }

  /** An entry no later than any entry of a sorted list can go in front. */
  lemma SortedCons<T>(y: Stamped<T>, s: seq<Stamped<T>>)
    requires SortedByTime(s)
    requires forall j :: 0 <= j < |s| ==> y.t <= s[j].t
    ensures SortedByTime([y] + s)
  {
    var r := [y] + s;
    assert forall i :: 1 <= i < |r| ==> r[i] == s[i - 1];
  }

  /** `list.sort(key=dt)`: Python's sort is stable, modelled as an
      insertion sort. */
  function SortByTime<T>(s: seq<Stamped<T>>): (r: seq<Stamped<T>>)
    ensures SortedByTime(r)
    ensures multiset(r) == multiset(s)
    ensures |r| == |s|
  {
    if |s| == 0 then []
    else
      assert s == [s[0]] + s[1..];
      Insert(s[0], SortByTime(s[1..]))
  }

  /** The entries with timestamp `k`, in order. */
  function AtTime<T>(k: int): Stamped<T> -> bool {
    (x: Stamped<T>) => x.t == k
  }

  lemma {:induction false} InsertStable<T>(x: Stamped<T>, s: seq<Stamped<T>>, k: int)
    requires SortedByTime(s)
    ensures Seqs.Filter(AtTime(k), Insert(x, s)) == Seqs.Filter(AtTime(k), [x] + s)
  {
    if |s| > 0 && x.t > s[0].t {
      InsertStable(x, s[1..], k);
      assert s == [s[0]] + s[1..];
      assert ([x] + s)[1..] == s;
      assert ([s[0]] + Insert(x, s[1..]))[1..] == Insert(x, s[1..]);
      assert ([x] + s[1..])[1..] == s[1..];
      if s[0].t == k {
        // `x` comes after `s[0]` and is later, so it is not at time `k`.
        assert x.t != k;
      }
    }
  }

  /** The sort is stable: for every timestamp, the entries carrying it
      appear in their original order. */
  lemma {:induction false} SortStable<T>(s: seq<Stamped<T>>, k: int)
    ensures Seqs.Filter(AtTime(k), SortByTime(s)) == Seqs.Filter(AtTime(k), s)
  {
    if |s| > 0 {
      SortStable(s[1..], k);
      InsertStable(s[0], SortByTime(s[1..]), k);
      assert ([s[0]] + SortByTime(s[1..]))[1..] == SortByTime(s[1..]);
      assert s == [s[0]] + s[1..];
    }
  }

  /** Consecutive entries of a batch are at most `maxDiff` apart. */
  predicate Tight<T>(b: seq<Stamped<T>>, maxDiff: real) {
    forall i :: 0 < i < |b| ==> Close(b[i - 1], b[i], maxDiff)
  }

  /** `next` is at most `maxDiff` after `prev`. */
  predicate Close<T>(prev: Stamped<T>, next: Stamped<T>, maxDiff: real) {
    (next.t - prev.t) as real <= maxDiff
  }

  /** Both batches are non-empty and `next` starts more than `maxDiff`
      after `prev` ends. */
  predicate Gap<T>(prev: seq<Stamped<T>>, next: seq<Stamped<T>>, maxDiff: real) {
    |prev| > 0 && |next| > 0 && (next[0].t - prev[|prev| - 1].t) as real > maxDiff
  }

  /** Every batch starts more than `maxDiff` after the previous one ends. */
  predicate Separated<T>(bs: seq<seq<Stamped<T>>>, maxDiff: real) {
    forall k :: 0 < k < |bs| ==> Gap(bs[k - 1], bs[k], maxDiff)
  }

  /** All batches are non-empty and tight, and consecutive ones are
      separated. */
  predicate WellSplit<T>(bs: seq<seq<Stamped<T>>>, maxDiff: real) {
    (forall k :: 0 <= k < |bs| ==> |bs[k]| > 0 && Tight(bs[k], maxDiff)) && Separated(bs, maxDiff)
  }

  /** Closing the open batch keeps the split well-formed. */
  lemma CloseBatch<T>(bs: seq<seq<Stamped<T>>>, current: seq<Stamped<T>>, maxDiff: real)
    requires WellSplit(bs, maxDiff)
    requires |current| > 0 && Tight(current, maxDiff)
    requires |bs| > 0 ==> Gap(bs[|bs| - 1], current, maxDiff)
    ensures WellSplit(bs + [current], maxDiff)
    ensures Seqs.Flatten(bs + [current]) == Seqs.Flatten(bs) + current
  {
    CloseBatchTight(bs, current, maxDiff);
    CloseBatchSeparated(bs, current, maxDiff);
    Seqs.FlattenSnoc(bs, current);
  }

  lemma CloseBatchTight<T>(bs: seq<seq<Stamped<T>>>, current: seq<Stamped<T>>, maxDiff: real)
    requires forall k :: 0 <= k < |bs| ==> |bs[k]| > 0 && Tight(bs[k], maxDiff)
    requires |current| > 0 && Tight(current, maxDiff)
    ensures forall k :: 0 <= k < |bs| + 1 ==> |(bs + [current])[k]| > 0 && Tight((bs + [current])[k], maxDiff)
  {
    var r := bs + [current];
    forall k | 0 <= k < |r| ensures |r[k]| > 0 && Tight(r[k], maxDiff) {
      if k < |bs| {
        assert r[k] == bs[k];
      }
    }
  }

  lemma CloseBatchSeparated<T>(bs: seq<seq<Stamped<T>>>, current: seq<Stamped<T>>, maxDiff: real)
    requires Separated(bs, maxDiff)
    requires |bs| > 0 ==> Gap(bs[|bs| - 1], current, maxDiff)
    ensures Separated(bs + [current], maxDiff)
  {
    var r := bs + [current];
    forall k | 0 < k < |r| ensures Gap(r[k - 1], r[k], maxDiff) {
      assert r[k - 1] == bs[k - 1];
      if k < |bs| {
        assert r[k] == bs[k];
      }
    }
  }

  /** Extending the open batch by an entry at most `maxDiff` after its
      last entry keeps it tight. */
  lemma ExtendBatch<T>(current: seq<Stamped<T>>, x: Stamped<T>, maxDiff: real)
    requires Tight(current, maxDiff)
    requires |current| > 0 ==> (x.t - current[|current| - 1].t) as real <= maxDiff
    ensures Tight(current + [x], maxDiff)
  {
  }

  /** The open batch of the split: non-empty, tight, ending with `last`,
      and separated from the closed batches; `last` is the time of its
      last entry. */
  predicate OpenBatch<T>(bs: seq<seq<Stamped<T>>>, current: seq<Stamped<T>>, last: int, maxDiff: real) {
    WellSplit(bs, maxDiff) && |current| > 0 && current[|current| - 1].t == last &&
    Tight(current, maxDiff) && (|bs| > 0 ==> Gap(bs[|bs| - 1], current, maxDiff))
  }

  /** One step of the loop: close the open batch when `x` is more than
      `maxDiff` after its last entry, then append `x`. */
  method Advance<T>(bs: seq<seq<Stamped<T>>>, current: seq<Stamped<T>>, last: int, x: Stamped<T>, maxDiff: real)
    returns (bs': seq<seq<Stamped<T>>>, current': seq<Stamped<T>>)
    requires OpenBatch(bs, current, last, maxDiff)
    ensures OpenBatch(bs', current', x.t, maxDiff)
    ensures Seqs.Flatten(bs') + current' == Seqs.Flatten(bs) + current + [x]
    ensures |bs'| == if (x.t - last) as real > maxDiff then |bs| + 1 else |bs|
  {
    if (x.t - last) as real > maxDiff {
      CloseBatch(bs, current, maxDiff);
      bs', current' := bs + [current], [x];
    } else {
      ExtendBatch(current, x, maxDiff);
      bs', current' := bs, current + [x];
    }
  }

  /** The loop of the split over a non-empty input: the closed batches and
      the open one hold the input in order. */
  method Scan<T>(s: seq<Stamped<T>>, maxDiff: real) returns (bs: seq<seq<Stamped<T>>>, current: seq<Stamped<T>>)
    requires |s| > 0
    ensures Seqs.Flatten(bs) + current == s
    ensures OpenBatch(bs, current, s[|s| - 1].t, maxDiff)
  {
    bs := [];
    current := [s[0]];
    for i := 1 to |s|
      invariant Seqs.Flatten(bs) + current == s[..i]
      invariant OpenBatch(bs, current, s[i - 1].t, maxDiff)
    {
      bs, current := Advance(bs, current, s[i - 1].t, s[i], maxDiff);
      assert s[..i + 1] == s[..i] + [s[i]];
    }
    assert s[..|s|] == s;
  }

  /** The gap-split loop: a new batch is opened whenever an entry is more
      than `maxDiff` after the previous one; the open batch is always
      closed at the end, so empty input gives one empty batch. */
  method SplitByGap<T>(s: seq<Stamped<T>>, maxDiff: real) returns (batches: seq<seq<Stamped<T>>>)
    ensures Seqs.Flatten(batches) == s
    ensures |s| == 0 ==> batches == [[]]
    ensures |s| > 0 ==> forall k :: 0 <= k < |batches| ==> |batches[k]| > 0
    ensures forall k :: 0 <= k < |batches| ==> Tight(batches[k], maxDiff)
    ensures Separated(batches, maxDiff)
  {
    if |s| == 0 {
      return [[]];
    }
    var bs, current := Scan(s, maxDiff);
    CloseBatch(bs, current, maxDiff);
    batches := bs + [current];
    assert WellSplit(batches, maxDiff);
  }

  /** The items of a list of entries. */
  function Items<T>(s: seq<Stamped<T>>): (r: seq<T>)
    ensures |r| == |s| && forall i :: 0 <= i < |s| ==> r[i] == s[i].item
  {
    seq(|s|, i requires 0 <= i < |s| => s[i].item)
  }
}
