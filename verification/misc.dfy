/** `batch` (src/wolf_utils/misc.py): consecutive chunks of `n` items,
    the last one possibly shorter. */
module Misc {
  import opened Wrappers
  import Seqs

  const ZeroStepMsg := "range() arg 3 must not be zero"

  /** Every chunk but the last holds `n` items; the last holds 1 to `n`. */
  predicate Chunked<T>(r: seq<seq<T>>, n: nat) {
    (forall k :: 0 <= k < |r| - 1 ==> |r[k]| == n) &&
    (|r| > 0 ==> 1 <= |r[|r| - 1]| <= n)
  }

  lemma ChunkedCons<T>(x: seq<T>, rest: seq<seq<T>>, n: nat)
    requires Chunked(rest, n) && 1 <= |x| <= n && (|rest| > 0 ==> |x| == n)
    ensures Chunked([x] + rest, n)
  {
    var r := [x] + rest;
    assert forall k :: 1 <= k < |r| ==> r[k] == rest[k - 1];
  }

  /** The chunks for a positive step, front to back. */
  function Chunks<T>(s: seq<T>, n: nat): (r: seq<seq<T>>)
    requires n > 0
    ensures Seqs.Flatten(r) == s
    ensures Chunked(r, n)
    decreases |s|
  {
    if |s| == 0 then []
    else
      var m := if n < |s| then n else |s|;
      var rest := Chunks(s[m..], n);
      Seqs.FlattenCons(s[..m], rest);
      assert s[..m] + s[m..] == s;
      ChunkedCons(s[..m], rest, n);
      [s[..m]] + rest
  }

  /** `c` chunks of `n` items are needed for `len` items and `c - 1` are
      not enough: c is the ceiling of len / n. */
  predicate CeilCount(len: nat, n: nat, c: nat) {
    len <= c * n && (c == 0 || (c - 1) * n < len)
  }

  /** The number of chunks is the ceiling of |s| / n. */
  lemma {:induction false} ChunkCount<T>(s: seq<T>, n: nat)
    requires n > 0
    ensures CeilCount(|s|, n, |Chunks(s, n)|)
    decreases |s|
  {
    if |s| > 0 {
      var m := if n < |s| then n else |s|;
      ChunkCount(s[m..], n);
      var c := |Chunks(s[m..], n)|;
      assert |Chunks(s, n)| == c + 1;
      assert c == 0 ==> |s| == m by {
        if c == 0 {
          assert Seqs.Flatten(Chunks(s[m..], n)) == [];
        }
      }
      CountStep(|s|, m, n, c, |Chunks(s, n)|);
    }
  }

  /** The arithmetic of one step of `ChunkCount`: a first chunk of `m`
      items followed by `c` chunks covering the rest. */
  lemma CountStep(len: nat, m: nat, n: nat, c: nat, total: nat)
    requires 0 < m <= n && m <= len && total == c + 1
    requires CeilCount(len - m, n, c)
    requires c == 0 ==> len == m
    requires c > 0 ==> m == n
    ensures CeilCount(len, n, total)
  {
    assert (c + 1) * n == c * n + n;
    if c > 0 {
      assert c * n == (c - 1) * n + n;
    }
  }

  /** `batch(iterable, n)`: a zero step is the `ValueError` of `range`; a
      negative one gives no chunks. */
  function Batch<T>(s: seq<T>, n: int): (r: Result<seq<seq<T>>>)
    ensures n == 0 <==> r == Err(Error.ValueError(ZeroStepMsg))
    ensures r.Ok? && n < 0 ==> r.value == []
    ensures r.Ok? && n > 0 ==> Seqs.Flatten(r.value) == s
    ensures r.Ok? && n > 0 ==> CeilCount(|s|, n, |r.value|)
    ensures r.Ok? && |s| == 0 ==> r.value == []
    ensures r.Ok? && n > 0 ==> forall k :: 0 <= k < |r.value| ==> 1 <= |r.value[k]| <= n
    ensures r.Ok? && n > 0 ==> Chunked(r.value, n)
  {
    if n == 0 then Err(Error.ValueError(ZeroStepMsg))
    else if n < 0 then Ok([])
    else
      ChunkCount(s, n);
      Ok(Chunks(s, n))
  }
}
