/** Box clustering and vote fusion (wolf_utils/analysis_helper.py).

    Boxes arrive as (x, y, w, h). `Iou` reads (x, y) as the box centre, as
    its code does; `BboxUnion` reads (x, y) as the minimum corner, as its
    arithmetic does. Both readings are kept exactly as written.
 */
module Analysis {
  import opened Wrappers
  import opened Numeric
  import Seqs
  import Merging

  /** The `1e-16` added to the IoU denominator. */
  const EPS: real := 0.0000000000000001

  datatype Box = Box(x: real, y: real, w: real, h: real)

  predicate NonNegative(b: Box) {
    b.w >= 0.0 && b.h >= 0.0
  }

  // ---------------------------------------------------------------- IoU

  function Left(b: Box): real { b.x - b.w / 2.0 }
  function Right(b: Box): real { b.x + b.w / 2.0 }
  function Top(b: Box): real { b.y - b.h / 2.0 }
  function Bottom(b: Box): real { b.y + b.h / 2.0 }

  /** Length of the overlap of [a1, a2] and [b1, b2], clamped at zero. */
  function Overlap(a1: real, a2: real, b1: real, b2: real): (r: real)
    ensures r >= 0.0
    ensures a1 <= a2 ==> r <= a2 - a1
    ensures b1 <= b2 ==> r <= b2 - b1
  {
    MaxR(0.0, MinR(a2, b2) - MaxR(a1, b1))
  }

  function XOverlap(a: Box, b: Box): real { Overlap(Left(a), Right(a), Left(b), Right(b)) }
  function YOverlap(a: Box, b: Box): real { Overlap(Top(a), Bottom(a), Top(b), Bottom(b)) }

  function InterArea(a: Box, b: Box): real {
    XOverlap(a, b) * YOverlap(a, b)
  }

  function Area(b: Box): real {
    (Right(b) - Left(b)) * (Bottom(b) - Top(b))
  }

  function IouDenominator(a: Box, b: Box): real {
    Area(a) + Area(b) - InterArea(a, b) + EPS
  }

  /** `bbox_iou`: intersection area over union area (plus EPS). */
  function Iou(a: Box, b: Box): real
    requires IouDenominator(a, b) != 0.0
  {
    InterArea(a, b) / IouDenominator(a, b)
  }

  /** `bbox_iou` as a total operation: a zero denominator is the
      ZeroDivisionError Python raises. */
  function TryIou(a: Box, b: Box): (r: Result<real>)
    ensures r.Err? <==> IouDenominator(a, b) == 0.0
    ensures r.Ok? ==> r.value == Iou(a, b)
  {
    if IouDenominator(a, b) == 0.0 then Err(ZeroDivisionError) else Ok(Iou(a, b))
  }

  lemma IouSymmetric(a: Box, b: Box)
    requires IouDenominator(a, b) != 0.0
    ensures IouDenominator(b, a) == IouDenominator(a, b)
    ensures Iou(a, b) == Iou(b, a)
  {
    InterAreaSymmetric(a, b);
  }

  lemma InterAreaSymmetric(a: Box, b: Box)
    ensures InterArea(b, a) == InterArea(a, b)
  {
    OverlapSymmetric(a, b);
  }

  lemma ProductBound(p: real, q: real, w: real, h: real)
    requires 0.0 <= p <= w && 0.0 <= q <= h
    ensures 0.0 <= p * q <= w * h
  {
    assert p * q <= w * q;
    assert w * q <= w * h;
  }

  lemma AreaIsSize(b: Box)
    ensures Area(b) == b.w * b.h
  {
    assert Right(b) - Left(b) == b.w;
    assert Bottom(b) - Top(b) == b.h;
  }

  lemma OverlapWithin(a: Box, b: Box)
    requires NonNegative(a) && NonNegative(b)
    ensures 0.0 <= XOverlap(a, b) <= a.w && XOverlap(a, b) <= b.w
    ensures 0.0 <= YOverlap(a, b) <= a.h && YOverlap(a, b) <= b.h
  {
  }

  /** The intersection is never larger than the first box. */
  lemma InterAreaWithinFirst(a: Box, b: Box)
    requires NonNegative(a) && NonNegative(b)
    ensures 0.0 <= InterArea(a, b) <= Area(a)
  {
    assert 0.0 <= InterArea(a, b) <= a.w * a.h by {
      OverlapWithin(a, b);
      ProductBound(XOverlap(a, b), YOverlap(a, b), a.w, a.h);
    }
    AreaIsSize(a);
  }

  /** The intersection is never larger than either box. */
  lemma InterAreaBounds(a: Box, b: Box)
    requires NonNegative(a) && NonNegative(b)
    ensures 0.0 <= InterArea(a, b) <= Area(a)
    ensures InterArea(a, b) <= Area(b)
  {
    InterAreaWithinFirst(a, b);
    InterAreaWithinFirst(b, a);
    InterAreaSymmetric(a, b);
  }

  lemma OverlapSymmetric(a: Box, b: Box)
    ensures XOverlap(b, a) == XOverlap(a, b) && YOverlap(b, a) == YOverlap(a, b)
  {
  }

  /** For boxes with non-negative size the IoU is defined and lies in
      [0, 1); it never reaches 1, even for identical boxes, because of EPS. */
  lemma IouBounds(a: Box, b: Box)
    requires NonNegative(a) && NonNegative(b)
    ensures IouDenominator(a, b) >= EPS
    ensures 0.0 <= Iou(a, b) < 1.0
  {
    InterAreaBounds(a, b);
    var d := IouDenominator(a, b);
    var i := InterArea(a, b);
    assert d >= Area(a) + EPS;
    assert i < d;
    assert i / d < 1.0 by {
      assert i / d * d == i;
    }
  }

  /** Identical boxes score w*h / (w*h + EPS), strictly below 1. */
  lemma IouSelf(a: Box)
    requires NonNegative(a)
    ensures IouDenominator(a, a) == a.w * a.h + EPS
    ensures Iou(a, a) == a.w * a.h / (a.w * a.h + EPS)
    ensures Iou(a, a) < 1.0
  {
    IouBounds(a, a);
    AreaIsSize(a);
    assert XOverlap(a, a) == a.w;
    assert YOverlap(a, a) == a.h;
    assert InterArea(a, a) == a.w * a.h;
  }

  /** Boxes that are apart along one axis have IoU exactly 0. */
  lemma IouDisjoint(a: Box, b: Box)
    requires IouDenominator(a, b) != 0.0
    requires Right(a) <= Left(b) || Right(b) <= Left(a) || Bottom(a) <= Top(b) || Bottom(b) <= Top(a)
    ensures Iou(a, b) == 0.0
  {
    assert InterArea(a, b) == 0.0;
  }

  // ---------------------------------------------------------- bbox_union

  /** `outer` covers `inner` when both are read as (min corner, size). */
  predicate CornerContains(outer: Box, inner: Box) {
    && outer.x <= inner.x && inner.x + inner.w <= outer.x + outer.w
    && outer.y <= inner.y && inner.y + inner.h <= outer.y + outer.h
  }

  /** `bbox_union`: the smallest box, read as (min corner, size), that
      covers both arguments. */
  function BboxUnion(a: Box, b: Box): (r: Box)
    ensures CornerContains(r, a) && CornerContains(r, b)
    ensures forall c :: CornerContains(c, a) && CornerContains(c, b) ==> CornerContains(c, r)
    ensures NonNegative(a) || NonNegative(b) ==> NonNegative(r)
  {
    var x := MinR(a.x, b.x);
    var y := MinR(a.y, b.y);
    Box(x, y, MaxR(a.x + a.w, b.x + b.w) - x, MaxR(a.y + a.h, b.y + b.h) - y)
  }

  lemma BboxUnionCommutative(a: Box, b: Box)
    ensures BboxUnion(a, b) == BboxUnion(b, a)
  {
  }

  // ------------------------------------------------------------- votings

  /** One (source, {class id: probability}) voting. */
  datatype Vote = Vote(source: string, probs: map<string, real>)

  /** `combine_votings`: all votings of all lists, in order. */
  function CombineVotings(vs: seq<seq<Vote>>): (r: seq<Vote>)
    ensures |r| == Seqs.SumLengths(vs)
  {
    Seqs.FlattenLength(vs);
    Seqs.Flatten(vs)
  }

  /** Combining two lists is their concatenation, order preserved. */
  lemma CombinePair(a: seq<Vote>, b: seq<Vote>)
    ensures CombineVotings([a, b]) == a + b
  {
    assert [a, b][..1] == [a];
    assert [a][..0] == [];
    assert Seqs.Flatten([a]) == a;
    assert Seqs.Flatten([a, b]) == Seqs.Flatten([a]) + b;
  }

  /** `get_possible_classes`: every class id named by any voting. */
  function PossibleClasses(votes: seq<Vote>): (r: set<string>)
    ensures forall c :: c in r <==> exists i :: 0 <= i < |votes| && c in votes[i].probs
  {
    if |votes| == 0 then {}
    else
      var rest := PossibleClasses(votes[1..]);
      assert forall i :: 1 <= i < |votes| ==> votes[i] == votes[1..][i - 1];
      votes[0].probs.Keys + rest
  }

  // ------------------------------------------------------ the merge loop

  /** A box with all the votings collected for it. */
  datatype Entry = Entry(box: Box, votes: seq<Vote>)

  /** The score the merge loop compares with the threshold: `bbox_iou` of
      the two boxes, failing on a zero denominator. */
  function EntryIou(a: Entry, b: Entry): Result<real> {
    TryIou(a.box, b.box)
  }

  /** The entry that replaces a merged pair: the union box with the votings
      of both, first entry's first. */
  function MergeOf(a: Entry, b: Entry): (r: Entry)
    ensures CornerContains(r.box, a.box) && CornerContains(r.box, b.box)
    ensures r.votes == a.votes + b.votes
  {
    CombinePair(a.votes, b.votes);
    Entry(BboxUnion(a.box, b.box), CombineVotings([a.votes, b.votes]))
  }

  /** The `while True` loop of `condense_votings` on boxes: when it ends,
      no two boxes left have an IoU above the threshold. */
  function Cluster(l: seq<Entry>, t: real, fuel: nat): (r: Result<seq<Entry>>)
    ensures r.Ok? ==> forall p: nat, q: nat :: p < q < |r.value| ==>
      IouDenominator(r.value[p].box, r.value[q].box) != 0.0 && Iou(r.value[p].box, r.value[q].box) <= t
  {
    var r := Merging.Cluster(EntryIou, MergeOf, l, t, fuel);
    assert r.Ok? ==> Merging.Separated(EntryIou, r.value, t);
    r
  }

  // -------------------------------------------------------------- fusion

  /** The weight of `v` for class `c`: present only when `v` names `c`. */
  predicate Contributes(v: Vote, c: string) {
    c in v.probs
  }

  /** Every voting that names `c` has a configured weight. */
  predicate WeightsKnown(votes: seq<Vote>, weights: map<string, real>, c: string) {
    forall i :: 0 <= i < |votes| && Contributes(votes[i], c) ==> votes[i].source in weights
  }

  /** The weight one voting gives class `c`: its source's weight when it
      names `c`, nothing otherwise. */
  function VoteWeight(v: Vote, weights: map<string, real>, c: string): real
    requires Contributes(v, c) ==> v.source in weights
  {
    if Contributes(v, c) then weights[v.source] else 0.0
  }

  /** The weighted probability one voting gives class `c`. */
  function VoteMass(v: Vote, weights: map<string, real>, c: string): real
    requires Contributes(v, c) ==> v.source in weights
  {
    if Contributes(v, c) then weights[v.source] * v.probs[c] else 0.0
  }

  /** Σ weight over the votings that name `c`. */
  function ContribWeight(votes: seq<Vote>, weights: map<string, real>, c: string): real
    requires WeightsKnown(votes, weights, c)
  {
    if |votes| == 0 then 0.0
    else
      assert WeightsKnown(votes[1..], weights, c) by {
        assert forall i :: 1 <= i < |votes| ==> votes[1..][i - 1] == votes[i];
      }
      VoteWeight(votes[0], weights, c) + ContribWeight(votes[1..], weights, c)
  }

  /** Σ weight * probability over the votings that name `c`. */
  function ContribMass(votes: seq<Vote>, weights: map<string, real>, c: string): real
    requires WeightsKnown(votes, weights, c)
  {
    if |votes| == 0 then 0.0
    else
      assert WeightsKnown(votes[1..], weights, c) by {
        assert forall i :: 1 <= i < |votes| ==> votes[1..][i - 1] == votes[i];
      }
      VoteMass(votes[0], weights, c) + ContribMass(votes[1..], weights, c)
  }

  /** The inner `for voting in votings` loop for one class: accumulates
      `sum_weights` and `total_weight` from index `i` on, failing at the
      first contributing voting whose source has no weight. */
  function Accumulate(votes: seq<Vote>, weights: map<string, real>, c: string, i: nat, sumW: real, total: real)
    : (r: Result<(real, real)>)
    requires i <= |votes|
    ensures r.Ok? <==> WeightsKnown(votes[i..], weights, c)
    ensures r.Ok? ==> r.value == (sumW + ContribWeight(votes[i..], weights, c), total + ContribMass(votes[i..], weights, c))
    ensures r.Err? ==> r == Err(ValueError(MissingWeightMsg))
    decreases |votes| - i
  {
    if i == |votes| then Ok((sumW, total))
    else
      var v := votes[i];
      var rest := votes[i + 1..];
      assert votes[i..] == [v] + rest;
      assert forall k :: 1 <= k < |votes[i..]| ==> votes[i..][k] == rest[k - 1];
      if Contributes(v, c) then
        if v.source !in weights then
          Err(ValueError(MissingWeightMsg))
        else
          var w := weights[v.source];
          var r := Accumulate(votes, weights, c, i + 1, sumW + w, total + w * v.probs[c]);
          assert r.Ok? ==> ContribWeight(votes[i..], weights, c) == w + ContribWeight(rest, weights, c);
          assert r.Ok? ==> ContribMass(votes[i..], weights, c) == w * v.probs[c] + ContribMass(rest, weights, c);
          r
      else
        var r := Accumulate(votes, weights, c, i + 1, sumW, total);
        assert r.Ok? ==> ContribWeight(votes[i..], weights, c) == ContribWeight(rest, weights, c);
        assert r.Ok? ==> ContribMass(votes[i..], weights, c) == ContribMass(rest, weights, c);
        r
  }

  const MissingWeightMsg: string := "Missing weight in config.json"

  /** The fused value of class `c`: Σ(w·p)/Σw over the votings naming `c`. */
  function FuseClass(votes: seq<Vote>, weights: map<string, real>, c: string): (r: Result<real>)
    ensures r.Ok? <==> WeightsKnown(votes, weights, c) && ContribWeight(votes, weights, c) != 0.0
    ensures r.Ok? ==> r.value == ContribMass(votes, weights, c) / ContribWeight(votes, weights, c)
    ensures !WeightsKnown(votes, weights, c) ==> r == Err(ValueError(MissingWeightMsg))
  {
    assert votes[0..] == votes;
    var acc := Accumulate(votes, weights, c, 0, 0.0, 0.0);
    if acc.Err? then acc.PropagateFailure()
    else if acc.value.0 == 0.0 then Err(ZeroDivisionError)
    else Ok(acc.value.1 / acc.value.0)
  }

  /** Some voting that names at least one class has no configured weight. */
  predicate MissingWeight(votes: seq<Vote>, weights: map<string, real>) {
    exists i, c :: 0 <= i < |votes| && c in votes[i].probs && votes[i].source !in weights
  }

  lemma NoMissingWeight(votes: seq<Vote>, weights: map<string, real>, c: string)
    requires !MissingWeight(votes, weights)
    ensures WeightsKnown(votes, weights, c)
  {
    forall i | 0 <= i < |votes| && Contributes(votes[i], c) ensures votes[i].source in weights {
      assert c in votes[i].probs;
    }
  }

  /** The per-box body of `condense_votings`: one fused value per possible
      class. A missing weight is the ValueError of the source; a class whose
      weights sum to zero is a ZeroDivisionError. When both happen the
      source's set order decides which is raised; the model reports the
      missing weight. */
  function Fuse(votes: seq<Vote>, weights: map<string, real>): (r: Result<map<string, real>>)
    ensures r.Err? <==> exists c :: c in PossibleClasses(votes) && FuseClass(votes, weights, c).Err?
    ensures MissingWeight(votes, weights) ==> r == Err(ValueError(MissingWeightMsg))
    ensures !MissingWeight(votes, weights) && r.Err? ==> r == Err(ZeroDivisionError)
    ensures r.Ok? ==> r.value.Keys == PossibleClasses(votes)
    ensures r.Ok? ==> forall c :: c in r.value ==> FuseClass(votes, weights, c) == Ok(r.value[c])
  {
    var classes := PossibleClasses(votes);
    if MissingWeight(votes, weights) then
      var i, c :| 0 <= i < |votes| && c in votes[i].probs && votes[i].source !in weights;
      assert c in classes && !WeightsKnown(votes, weights, c);
      assert FuseClass(votes, weights, c).Err?;
      Err(ValueError(MissingWeightMsg))
    else if exists c :: c in classes && FuseClass(votes, weights, c).Err? then Err(ZeroDivisionError)
    else Ok(map c | c in classes :: FuseClass(votes, weights, c).value)
  }

  /** The whole `condense_votings`: cluster, then fuse each entry's votes. */
  function FuseAll(l: seq<Entry>, weights: map<string, real>): (r: Result<seq<(Box, map<string, real>)>>)
    ensures r.Ok? ==> |r.value| == |l|
    ensures r.Ok? ==> forall k :: 0 <= k < |l| ==>
      Fuse(l[k].votes, weights).Ok? && r.value[k] == (l[k].box, Fuse(l[k].votes, weights).value)
    ensures r.Err? ==> exists k :: 0 <= k < |l| && Fuse(l[k].votes, weights).Err?
  {
    if |l| == 0 then Ok([])
    else
      var head := Fuse(l[0].votes, weights);
      if head.Err? then Err(head.error)
      else
        var rest := FuseAll(l[1..], weights);
        if rest.Err? then Err(rest.error)
        else Ok([(l[0].box, head.value)] + rest.value)
  }

  function CondenseVotings(boxes: seq<Entry>, t: real, weights: map<string, real>, fuel: nat)
    : (r: Result<seq<(Box, map<string, real>)>>)
    ensures r.Ok? ==> Cluster(boxes, t, fuel).Ok? && |r.value| == |Cluster(boxes, t, fuel).value|
    ensures r.Ok? ==> forall p: nat, q: nat :: p < q < |r.value| ==>
      IouDenominator(r.value[p].0, r.value[q].0) != 0.0 && Iou(r.value[p].0, r.value[q].0) <= t
    ensures Cluster(boxes, t, fuel).Err? ==> r == Err(Cluster(boxes, t, fuel).error)
    ensures Cluster(boxes, t, fuel).Ok? ==> r == FuseAll(Cluster(boxes, t, fuel).value, weights)
  {
    var clustered := Cluster(boxes, t, fuel);
    if clustered.Err? then Err(clustered.error)
    else
      var r := FuseAll(clustered.value, weights);
      if r.Ok? then
        assert forall k :: 0 <= k < |r.value| ==> r.value[k].0 == clustered.value[k].box;
        r
      else r
  }

  /** Boxes that already overlap no more than the threshold are not
      merged: condensing them only fuses each box's own votes, box by box. */
  lemma CondenseOfSeparated(boxes: seq<Entry>, t: real, weights: map<string, real>, fuel: nat)
    requires forall p: nat, q: nat :: p < q < |boxes| ==>
      EntryIou(boxes[p], boxes[q]).Ok? && EntryIou(boxes[p], boxes[q]).value <= t
    requires fuel > 0
    ensures CondenseVotings(boxes, t, weights, fuel) == FuseAll(boxes, weights)
  {
    Merging.ClusterOfSeparated(EntryIou, MergeOf, boxes, t, fuel);
  }

  // ---------------------------------------------------- fusion properties

  lemma MulMono(w: real, a: real, b: real)
    requires w >= 0.0 && a <= b
    ensures w * a <= w * b
  {
  }

  lemma {:induction false} WeightSign(votes: seq<Vote>, weights: map<string, real>, c: string)
    requires WeightsKnown(votes, weights, c)
    requires forall i :: 0 <= i < |votes| && Contributes(votes[i], c) ==> weights[votes[i].source] > 0.0
    ensures ContribWeight(votes, weights, c) >= 0.0
    ensures (exists i :: 0 <= i < |votes| && Contributes(votes[i], c)) ==> ContribWeight(votes, weights, c) > 0.0
  {
    if |votes| > 0 {
      var rest := votes[1..];
      assert forall i :: 1 <= i < |votes| ==> rest[i - 1] == votes[i];
      WeightSign(rest, weights, c);
      if !Contributes(votes[0], c) && exists i :: 0 <= i < |votes| && Contributes(votes[i], c) {
        var i :| 0 <= i < |votes| && Contributes(votes[i], c);
        assert Contributes(rest[i - 1], c);
      }
    }
  }

  /** lo * weight <= mass <= hi * weight: for a positive weight, the mean
      mass / weight lies in [lo, hi]. */
  predicate Bounded(lo: real, hi: real, weight: real, mass: real) {
    lo * weight <= mass <= hi * weight
  }

  /** A voting's own contribution lies within the bounds of its probability. */
  lemma VoteBounds(v: Vote, weights: map<string, real>, c: string, lo: real, hi: real)
    requires Contributes(v, c) ==> v.source in weights && weights[v.source] > 0.0 && lo <= v.probs[c] <= hi
    ensures Bounded(lo, hi, VoteWeight(v, weights, c), VoteMass(v, weights, c))
  {
    if Contributes(v, c) {
      MulMono(weights[v.source], lo, v.probs[c]);
      MulMono(weights[v.source], v.probs[c], hi);
    }
  }

  /** Bounded masses add up. */
  lemma AddBounds(lo: real, hi: real, w1: real, m1: real, w2: real, m2: real, w: real, m: real)
    requires Bounded(lo, hi, w1, m1) && Bounded(lo, hi, w2, m2)
    requires w == w1 + w2 && m == m1 + m2
    ensures Bounded(lo, hi, w, m)
  {
    assert lo * w == lo * w1 + lo * w2;
    assert hi * w == hi * w1 + hi * w2;
  }

  lemma ContribUnfold(votes: seq<Vote>, weights: map<string, real>, c: string)
    requires |votes| > 0 && WeightsKnown(votes, weights, c) && WeightsKnown(votes[1..], weights, c)
    ensures ContribWeight(votes, weights, c) == VoteWeight(votes[0], weights, c) + ContribWeight(votes[1..], weights, c)
    ensures ContribMass(votes, weights, c) == VoteMass(votes[0], weights, c) + ContribMass(votes[1..], weights, c)
  {
  }

  /** One voting added in front keeps the weighted mass within the bounds. */
  lemma MassStep(votes: seq<Vote>, weights: map<string, real>, c: string, lo: real, hi: real)
    requires |votes| > 0 && WeightsKnown(votes, weights, c) && WeightsKnown(votes[1..], weights, c)
    requires Contributes(votes[0], c) ==>
      weights[votes[0].source] > 0.0 && lo <= votes[0].probs[c] <= hi
    requires Bounded(lo, hi, ContribWeight(votes[1..], weights, c), ContribMass(votes[1..], weights, c))
    ensures Bounded(lo, hi, ContribWeight(votes, weights, c), ContribMass(votes, weights, c))
  {
    ContribUnfold(votes, weights, c);
    VoteBounds(votes[0], weights, c, lo, hi);
    AddBounds(lo, hi, VoteWeight(votes[0], weights, c), VoteMass(votes[0], weights, c),
      ContribWeight(votes[1..], weights, c), ContribMass(votes[1..], weights, c),
      ContribWeight(votes, weights, c), ContribMass(votes, weights, c));
  }

  lemma {:induction false} MassBounds(votes: seq<Vote>, weights: map<string, real>, c: string, lo: real, hi: real)
    requires WeightsKnown(votes, weights, c)
    requires forall i :: 0 <= i < |votes| && Contributes(votes[i], c) ==>
      weights[votes[i].source] > 0.0 && lo <= votes[i].probs[c] <= hi
    ensures Bounded(lo, hi, ContribWeight(votes, weights, c), ContribMass(votes, weights, c))
  {
    if |votes| > 0 {
      var rest := votes[1..];
      assert WeightsKnown(rest, weights, c) && forall i :: 0 <= i < |rest| && Contributes(rest[i], c) ==>
        weights[rest[i].source] > 0.0 && lo <= rest[i].probs[c] <= hi
      by {
        assert forall i :: 1 <= i < |votes| ==> rest[i - 1] == votes[i];
      }
      MassBounds(rest, weights, c, lo, hi);
      MassStep(votes, weights, c, lo, hi);
    } else {
      assert ContribWeight(votes, weights, c) == 0.0 && ContribMass(votes, weights, c) == 0.0;
      assert Bounded(lo, hi, 0.0, 0.0);
    }
  }

  /** With positive weights, the fused value of a class lies between the
      smallest and the largest probability that contributed to it. */
  lemma FusedWithinBounds(votes: seq<Vote>, weights: map<string, real>, c: string, lo: real, hi: real)
    requires WeightsKnown(votes, weights, c)
    requires forall i :: 0 <= i < |votes| && Contributes(votes[i], c) ==>
      weights[votes[i].source] > 0.0 && lo <= votes[i].probs[c] <= hi
    requires exists i :: 0 <= i < |votes| && Contributes(votes[i], c)
    ensures FuseClass(votes, weights, c).Ok?
    ensures lo <= FuseClass(votes, weights, c).value <= hi
  {
    MassBounds(votes, weights, c, lo, hi);
    WeightSign(votes, weights, c);
    var w := ContribWeight(votes, weights, c);
    var m := ContribMass(votes, weights, c);
    DivBounds(m, w, lo, hi);
  }

  lemma DivBounds(m: real, w: real, lo: real, hi: real)
    requires w > 0.0 && Bounded(lo, hi, w, m)
    ensures lo <= m / w <= hi
  {
    assert m / w * w == m;
    if m / w < lo {
      MulMono(w, m / w, lo);
    }
    if m / w > hi {
      MulMono(w, hi, m / w);
    }
  }

  lemma SingleVoteClass(v: Vote, weights: map<string, real>, c: string)
    requires v.source in weights && weights[v.source] > 0.0 && c in v.probs
    ensures FuseClass([v], weights, c) == Ok(v.probs[c])
  {
    var w := weights[v.source];
    var p := v.probs[c];
    assert [v][1..] == [];
    assert ContribWeight([v], weights, c) == w;
    assert ContribMass([v], weights, c) == w * p;
    assert w * p / w == p;
  }

  /** A single voting with a positive weight is reproduced unchanged. */
  lemma FuseSingleVote(v: Vote, weights: map<string, real>)
    requires v.source in weights && weights[v.source] > 0.0
    ensures Fuse([v], weights) == Ok(v.probs)
  {
    assert PossibleClasses([v]) == v.probs.Keys;
    forall c | c in v.probs ensures FuseClass([v], weights, c) == Ok(v.probs[c]) {
      SingleVoteClass(v, weights, c);
    }
    assert !MissingWeight([v], weights);
    var r := Fuse([v], weights);
    assert r.Ok?;
    assert r.value.Keys == v.probs.Keys;
    assert forall c :: c in r.value ==> r.value[c] == v.probs[c];
    assert r.value == v.probs;
  }

  // ------------------------------------------------------- to_xmin_xmax

  /** `to_xmin_xmax`: centre form to (x_min, x_max, y_min, y_max), each
      coordinate truncated toward zero by `int()`. */
  function ToXminXmax(b: Box): (r: (int, int, int, int))
    ensures NonNegative(b) ==> r.0 <= r.1 && r.2 <= r.3
  {
    var xmin := b.x - b.w / 2.0;
    var xmax := b.x + b.w / 2.0;
    var ymin := b.y - b.h / 2.0;
    var ymax := b.y + b.h / 2.0;
    assert NonNegative(b) ==> Trunc(xmin) <= Trunc(xmax) && Trunc(ymin) <= Trunc(ymax) by {
      if NonNegative(b) {
        TruncMonotone(xmin, xmax);
        TruncMonotone(ymin, ymax);
      }
    }
    (Trunc(xmin), Trunc(xmax), Trunc(ymin), Trunc(ymax))
  }
}
