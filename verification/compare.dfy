/** tools/compare_yolo_datasets_union.py: compares a directory of detected
    YOLO label files against a ground-truth directory, counting true
    positives, false positives and false negatives file by file, and
    scores the totals. A label line is "class xCenter yCenter w h". */
module CompareYolo {
  import opened Wrappers
  import opened Analysis
  import Text
  import Seqs

  /** The class list file that is not a label file. */
  const ClassesFile := "classes.txt"

  /** A parsed label line. */
  datatype LabelLine = LabelLine(cls: int, box: Box)

  datatype Counts = Counts(fp: nat, tp: nat, fn: nat, tn: nat)

  /** The file's `bbox_iou` has the same arithmetic as the analysis one
      (centre boxes, `1e-16` in the denominator): for boxes of
      non-negative size it is defined, symmetric and lies in [0, 1). */
  lemma IouSymmetricInUnit(a: Box, b: Box)
    requires NonNegative(a) && NonNegative(b)
    ensures TryIou(a, b).Ok? && TryIou(a, b) == TryIou(b, a)
    ensures 0.0 <= TryIou(a, b).value < 1.0
  {
    IouBounds(a, b);
    IouSymmetric(a, b);
  }

  // ---------------------------------------------------------------- parsing

  function IsLine(): string -> bool {
    (l: string) => |l| > 0
  }

  /** Number of non-empty lines. */
  function LineCount(lines: seq<string>): nat {
    |Seqs.Filter(IsLine(), lines)|
  }

  /** The line parses: `int(line[0])` (the class is the first character
      only) and `boxOf`, which stands for `float` over the remaining
      fields. */
  predicate Parses(l: string, boxOf: string -> Result<Box>)
    requires |l| > 0
  {
    Text.ParseInt([l[0]]).Ok? && boxOf(l).Ok?
  }

  /** Lines 68-84: one entry per non-empty line, in order. */
  function ParseEntries(lines: seq<string>, boxOf: string -> Result<Box>): (r: Result<seq<LabelLine>>)
    ensures r.Ok? <==> forall l :: l in lines && |l| > 0 ==> Parses(l, boxOf)
    ensures r.Ok? ==> |r.value| == LineCount(lines)
    ensures r.Ok? ==> forall k :: 0 <= k < |r.value| ==>
      (var l := Seqs.Filter(IsLine(), lines)[k];
       |l| > 0 && Text.ParseInt([l[0]]) == Ok(r.value[k].cls) && boxOf(l) == Ok(r.value[k].box))
  {
    if |lines| == 0 then Ok([])
    else
      assert lines == [lines[0]] + lines[1..];
      if |lines[0]| == 0 then ParseEntries(lines[1..], boxOf)
      else
        var cls :- Text.ParseInt([lines[0][0]]);
        var box :- boxOf(lines[0]);
        var rest :- ParseEntries(lines[1..], boxOf);
        Ok([LabelLine(cls, box)] + rest)
  }

  // ---------------------------------------------------------------- matching

  /** The match test of line 89: `bbox_iou(gt, det) > iou`. */
  predicate Correct(gt: Box, det: Box, thr: real) {
    TryIou(gt, det).Ok? && TryIou(gt, det).value > thr
  }

  /** Every ground-truth/detection pair has a non-zero IoU denominator, so
      the double loop runs to the end. */
  predicate Defined(G: seq<LabelLine>, D: seq<LabelLine>) {
    forall g, d :: 0 <= g < |G| && 0 <= d < |D| ==> IouDenominator(G[g].box, D[d].box) != 0.0
  }

  /** A matched (ground truth, detection) pair, by index. */
  type Pair = (nat, nat)

  predicate InRange(G: seq<LabelLine>, D: seq<LabelLine>, pairs: seq<Pair>) {
    forall k :: 0 <= k < |pairs| ==> pairs[k].0 < |G| && pairs[k].1 < |D|
  }

  /** No ground truth and no detection takes part in two pairs. */
  predicate Injective(pairs: seq<Pair>) {
    forall a, b :: 0 <= a < b < |pairs| ==> pairs[a].0 != pairs[b].0 && pairs[a].1 != pairs[b].1
  }

  predicate GtMatched(pairs: seq<Pair>, g: nat) {
    exists k :: 0 <= k < |pairs| && pairs[k].0 == g
  }

  predicate DetMatched(pairs: seq<Pair>, d: nat) {
    exists k :: 0 <= k < |pairs| && pairs[k].1 == d
  }

  /** Number of pairs whose classes agree. */
  function SameClass(G: seq<LabelLine>, D: seq<LabelLine>, pairs: seq<Pair>): nat
    requires InRange(G, D, pairs)
  {
    if |pairs| == 0 then 0
    else
      var p := pairs[|pairs| - 1];
      SameClass(G, D, pairs[..|pairs| - 1]) + (if G[p.0].cls == D[p.1].cls then 1 else 0)
  }

  /** The loop state: the two `detected` flag lists, the pairs matched so
      far, and the true positives and class mismatches among them. */
  datatype State = State(gDone: seq<bool>, dDone: seq<bool>, pairs: seq<Pair>, tp: nat, mism: nat)

  /** What the loop keeps: the flags are exactly the matched indices, the
      pairs are over-threshold and injective, and each pair is either a
      true positive (same class) or a mismatch. */
  predicate Inv(G: seq<LabelLine>, D: seq<LabelLine>, st: State, thr: real) {
    |st.gDone| == |G| && |st.dDone| == |D| &&
    InRange(G, D, st.pairs) && Injective(st.pairs) &&
    (forall k :: 0 <= k < |st.pairs| ==> Correct(G[st.pairs[k].0].box, D[st.pairs[k].1].box, thr)) &&
    (forall g :: 0 <= g < |G| ==> (st.gDone[g] <==> GtMatched(st.pairs, g))) &&
    (forall d :: 0 <= d < |D| ==> (st.dDone[d] <==> DetMatched(st.pairs, d))) &&
    Seqs.CountFalse(st.gDone) == |G| - |st.pairs| &&
    Seqs.CountFalse(st.dDone) == |D| - |st.pairs| &&
    st.tp == SameClass(G, D, st.pairs) && st.tp + st.mism == |st.pairs|
  }

  /** Lines 94-102: both flags set and the pair counted. */
  function Record(G: seq<LabelLine>, D: seq<LabelLine>, st: State, g: nat, d: nat): State
    requires |st.gDone| == |G| && |st.dDone| == |D| && g < |G| && d < |D|
  {
    var same := G[g].cls == D[d].cls;
    State(st.gDone[g := true], st.dDone[d := true], st.pairs + [(g, d)],
          if same then st.tp + 1 else st.tp, if same then st.mism else st.mism + 1)
  }

  lemma RecordKeepsInv(G: seq<LabelLine>, D: seq<LabelLine>, st: State, g: nat, d: nat, thr: real)
    requires Inv(G, D, st, thr) && g < |G| && d < |D|
    requires !st.gDone[g] && !st.dDone[d] && Correct(G[g].box, D[d].box, thr)
    ensures Inv(G, D, Record(G, D, st, g, d), thr)
  {
    var ps := st.pairs + [(g, d)];
    assert ps[..|ps| - 1] == st.pairs;
    Seqs.CountFalseMark(st.gDone, g);
    Seqs.CountFalseMark(st.dDone, d);
    RecordInjective(st.pairs, g, d);
    RecordFlags(st.gDone, st.pairs, (g, d), true);
    RecordFlags(st.dDone, st.pairs, (g, d), false);
    assert forall h :: OnSide(ps, h, true) == GtMatched(ps, h);
    assert forall h :: OnSide(ps, h, false) == DetMatched(ps, h);
  }

  /** The index `i` appears on the given side of some pair. */
  predicate OnSide(pairs: seq<Pair>, i: nat, left: bool) {
    if left then GtMatched(pairs, i) else DetMatched(pairs, i)
  }

  /** A new pair of two unmatched indices keeps the pairs injective. */
  lemma RecordInjective(pairs: seq<Pair>, g: nat, d: nat)
    requires Injective(pairs) && !GtMatched(pairs, g) && !DetMatched(pairs, d)
    ensures Injective(pairs + [(g, d)])
  {
    var ps := pairs + [(g, d)];
    forall a, b | 0 <= a < b < |ps| ensures ps[a].0 != ps[b].0 && ps[a].1 != ps[b].1 {
      if b == |ps| - 1 {
        assert ps[a] == pairs[a];
      }
    }
  }

  /** Setting flag `i` after adding a pair with `i` on that side keeps the
      flags equal to the matched indices. */
  lemma RecordFlags(flags: seq<bool>, pairs: seq<Pair>, p: Pair, left: bool)
    requires (if left then p.0 else p.1) < |flags|
    requires forall h :: 0 <= h < |flags| ==> (flags[h] <==> OnSide(pairs, h, left))
    ensures forall h :: 0 <= h < |flags| ==>
      (flags[if left then p.0 else p.1 := true][h] <==> OnSide(pairs + [p], h, left))
  {
    var i := if left then p.0 else p.1;
    var ps := pairs + [p];
    forall h | 0 <= h < |flags| ensures flags[i := true][h] <==> OnSide(ps, h, left) {
      if h == i {
        assert (if left then ps[|ps| - 1].0 else ps[|ps| - 1].1) == i;
      } else {
        if OnSide(ps, h, left) {
          var k :| 0 <= k < |ps| && (if left then ps[k].0 else ps[k].1) == h;
          assert k < |pairs| && ps[k] == pairs[k];
        }
        if OnSide(pairs, h, left) {
          var k :| 0 <= k < |pairs| && (if left then pairs[k].0 else pairs[k].1) == h;
          assert ps[k] == pairs[k];
        }
      }
    }
  }

  /** One pair of the double loop (lines 89-102): the IoU is computed
      (and may raise), then the pair is matched when it is over the
      threshold and both sides are still unmatched. */
  method Visit(G: seq<LabelLine>, D: seq<LabelLine>, thr: real, gi: nat, di: nat, cur: State) returns (r: Result<State>)
    requires Inv(G, D, cur, thr) && gi < |G| && di < |D|
    ensures r.Err? <==> IouDenominator(G[gi].box, D[di].box) == 0.0
    ensures r.Ok? ==> Inv(G, D, r.value, thr)
    ensures r.Ok? ==> forall k :: 0 <= k < |r.value.pairs| ==> r.value.pairs[k] == (gi, di) || r.value.pairs[k] in cur.pairs
    ensures r.Ok? ==> forall g :: 0 <= g < |G| && g != gi ==> r.value.gDone[g] == cur.gDone[g]
    ensures r.Ok? ==> cur.gDone[gi] ==> r.value.gDone[gi]
    ensures r.Ok? ==> forall d :: 0 <= d < |D| ==> (cur.dDone[d] ==> r.value.dDone[d]) && (r.value.dDone[d] ==> cur.dDone[d] || d == di)
    ensures r.Ok? ==> !r.value.gDone[gi] ==> !cur.gDone[gi]
    ensures r.Ok? && !r.value.gDone[gi] && !r.value.dDone[di] ==> !Correct(G[gi].box, D[di].box, thr)
  {
    var iou := TryIou(G[gi].box, D[di].box);
    if iou.Err? {
      return Err(iou.error);
    }
    if iou.value > thr && !cur.gDone[gi] && !cur.dDone[di] {
      RecordKeepsInv(G, D, cur, gi, di, thr);
      return Ok(Record(G, D, cur, gi, di));
    }
    return Ok(cur);
  }

  /** The inner loop for ground truth `gi` (lines 88-102): the first
      unmatched detection over the threshold is taken, whatever its class.
      Every pair's IoU is computed, so a zero denominator anywhere in the
      row raises. */
  method MatchRow(G: seq<LabelLine>, D: seq<LabelLine>, thr: real, gi: nat, st: State) returns (r: Result<State>)
    requires Inv(G, D, st, thr) && gi < |G|
    requires forall k :: 0 <= k < |st.pairs| ==> st.pairs[k].0 < gi
    ensures r.Err? <==> exists d :: 0 <= d < |D| && IouDenominator(G[gi].box, D[d].box) == 0.0
    ensures r.Ok? ==> Inv(G, D, r.value, thr)
    ensures r.Ok? ==> forall k :: 0 <= k < |r.value.pairs| ==> r.value.pairs[k].0 <= gi
    ensures r.Ok? ==> forall g :: 0 <= g < |G| && g != gi ==> r.value.gDone[g] == st.gDone[g]
    ensures r.Ok? ==> forall d :: 0 <= d < |D| && st.dDone[d] ==> r.value.dDone[d]
    ensures r.Ok? ==> forall d :: 0 <= d < |D| && !r.value.gDone[gi] && !r.value.dDone[d] ==>
      !Correct(G[gi].box, D[d].box, thr)
  {
    var cur := st;
    for di := 0 to |D|
      invariant RowInv(G, D, thr, gi, st, cur, di)
    {
      var next := Visit(G, D, thr, gi, di, cur);
      if next.Err? {
        return Err(next.error);
      }
      RowStep(G, D, thr, gi, st, cur, di, next.value);
      cur := next.value;
    }
    return Ok(cur);
  }

  /** What the inner loop keeps once the detections before `di` are
      visited in row `gi`, starting from `st`. */
  predicate RowInv(G: seq<LabelLine>, D: seq<LabelLine>, thr: real, gi: nat, st: State, cur: State, di: nat) {
    gi < |G| && di <= |D| && Inv(G, D, st, thr) && Inv(G, D, cur, thr) &&
    (forall k :: 0 <= k < |cur.pairs| ==> cur.pairs[k].0 <= gi) &&
    (forall g :: 0 <= g < |G| && g != gi ==> cur.gDone[g] == st.gDone[g]) &&
    (forall d :: 0 <= d < |D| && st.dDone[d] ==> cur.dDone[d]) &&
    (forall d :: 0 <= d < di && !cur.gDone[gi] && !cur.dDone[d] ==> !Correct(G[gi].box, D[d].box, thr)) &&
    (forall d :: 0 <= d < di ==> IouDenominator(G[gi].box, D[d].box) != 0.0)
  }

  /** A successful visit of detection `di` extends the inner loop's
      invariant by one. */
  lemma RowStep(G: seq<LabelLine>, D: seq<LabelLine>, thr: real, gi: nat, st: State, cur: State, di: nat, nxt: State)
    requires RowInv(G, D, thr, gi, st, cur, di) && di < |D|
    requires Inv(G, D, nxt, thr)
    requires forall k :: 0 <= k < |nxt.pairs| ==> nxt.pairs[k] == (gi, di) || nxt.pairs[k] in cur.pairs
    requires forall g :: 0 <= g < |G| && g != gi ==> nxt.gDone[g] == cur.gDone[g]
    requires forall d :: 0 <= d < |D| ==> (cur.dDone[d] ==> nxt.dDone[d]) && (nxt.dDone[d] ==> cur.dDone[d] || d == di)
    requires !nxt.gDone[gi] ==> !cur.gDone[gi]
    requires !nxt.gDone[gi] && !nxt.dDone[di] ==> !Correct(G[gi].box, D[di].box, thr)
    requires IouDenominator(G[gi].box, D[di].box) != 0.0
    ensures RowInv(G, D, thr, gi, st, nxt, di + 1)
  {
    forall k | 0 <= k < |nxt.pairs| ensures nxt.pairs[k].0 <= gi {
      if nxt.pairs[k] != (gi, di) {
        var k' :| 0 <= k' < |cur.pairs| && cur.pairs[k'] == nxt.pairs[k];
      }
    }
  }

  /** The double loop of lines 87-102. It ends with a maximal matching:
      no unmatched ground truth and unmatched detection are left over the
      threshold. */
  method MatchAll(G: seq<LabelLine>, D: seq<LabelLine>, thr: real) returns (r: Result<State>)
    ensures r.Err? <==> !Defined(G, D)
    ensures r.Ok? ==> Inv(G, D, r.value, thr)
    ensures r.Ok? ==> forall g, d :: 0 <= g < |G| && 0 <= d < |D| && !r.value.gDone[g] && !r.value.dDone[d] ==>
      !Correct(G[g].box, D[d].box, thr)
  {
    var cur := State(seq(|G|, _ => false), seq(|D|, _ => false), [], 0, 0);
    ZeroFlags(|G|);
    ZeroFlags(|D|);
    for gi := 0 to |G|
      invariant AllInv(G, D, thr, cur, gi)
    {
      var row := MatchRow(G, D, thr, gi, cur);
      if row.Err? {
        return Err(row.error);
      }
      AllStep(G, D, thr, cur, gi, row.value);
      cur := row.value;
    }
    return Ok(cur);
  }

  /** What the outer loop keeps once the ground truths before `gi` are
      done. */
  predicate AllInv(G: seq<LabelLine>, D: seq<LabelLine>, thr: real, cur: State, gi: nat) {
    gi <= |G| && Inv(G, D, cur, thr) &&
    (forall k :: 0 <= k < |cur.pairs| ==> cur.pairs[k].0 < gi) &&
    (forall g, d :: 0 <= g < gi && 0 <= d < |D| && !cur.gDone[g] && !cur.dDone[d] ==>
      !Correct(G[g].box, D[d].box, thr)) &&
    (forall g, d :: 0 <= g < gi && 0 <= d < |D| ==> IouDenominator(G[g].box, D[d].box) != 0.0)
  }

  /** A successful row `gi` extends the outer loop's invariant by one. */
  lemma AllStep(G: seq<LabelLine>, D: seq<LabelLine>, thr: real, cur: State, gi: nat, nxt: State)
    requires AllInv(G, D, thr, cur, gi) && gi < |G|
    requires forall d :: 0 <= d < |D| ==> IouDenominator(G[gi].box, D[d].box) != 0.0
    requires Inv(G, D, nxt, thr)
    requires forall k :: 0 <= k < |nxt.pairs| ==> nxt.pairs[k].0 <= gi
    requires forall g :: 0 <= g < |G| && g != gi ==> nxt.gDone[g] == cur.gDone[g]
    requires forall d :: 0 <= d < |D| && cur.dDone[d] ==> nxt.dDone[d]
    requires forall d :: 0 <= d < |D| && !nxt.gDone[gi] && !nxt.dDone[d] ==> !Correct(G[gi].box, D[d].box, thr)
    ensures AllInv(G, D, thr, nxt, gi + 1)
  {
  }

  lemma {:induction false} ZeroFlags(n: nat)
    ensures Seqs.CountFalse(seq(n, _ => false)) == n
  {
    if n > 0 {
      ZeroFlags(n - 1);
      assert seq(n, _ => false)[1..] == seq(n - 1, _ => false);
    }
  }

  // ---------------------------------------------------------------- one file

  /** The outcome of `compare_boxes` with the parsed lines and the matched
      pairs it was computed from. */
  datatype Comparison = Comparison(counts: Counts, gts: seq<LabelLine>, dets: seq<LabelLine>, pairs: seq<Pair>)

  /** `compare_boxes` (lines 60-109). Every detection ends up either a true
      positive, a false positive (matched with another class, or
      unmatched), and every unmatched ground truth is a false negative;
      true negatives do not exist. */
  method CompareBoxes(det: seq<string>, gt: seq<string>, boxOf: string -> Result<Box>, thr: real)
    returns (r: Result<Comparison>)
    ensures r.Ok? <==> (ParseEntries(det, boxOf).Ok? && ParseEntries(gt, boxOf).Ok? &&
      Defined(ParseEntries(gt, boxOf).value, ParseEntries(det, boxOf).value))
    ensures r.Ok? ==> r.value.dets == ParseEntries(det, boxOf).value && r.value.gts == ParseEntries(gt, boxOf).value
    ensures r.Ok? ==> (InRange(r.value.gts, r.value.dets, r.value.pairs) && Injective(r.value.pairs) &&
      forall k :: 0 <= k < |r.value.pairs| ==>
        Correct(r.value.gts[r.value.pairs[k].0].box, r.value.dets[r.value.pairs[k].1].box, thr))
    ensures r.Ok? ==> (r.value.counts.tp == SameClass(r.value.gts, r.value.dets, r.value.pairs) &&
      r.value.counts.fp == (|r.value.pairs| - r.value.counts.tp) + (|r.value.dets| - |r.value.pairs|))
    ensures r.Ok? ==> r.value.counts.tp + r.value.counts.fp == |r.value.dets| == LineCount(det)
    ensures r.Ok? ==> (r.value.counts.fn == |r.value.gts| - |r.value.pairs| &&
      r.value.counts.tp + r.value.counts.fn <= |r.value.gts| == LineCount(gt))
    ensures r.Ok? ==> r.value.counts.tn == 0
    ensures r.Ok? ==> forall g, d ::
      (0 <= g < |r.value.gts| && 0 <= d < |r.value.dets| &&
       !GtMatched(r.value.pairs, g) && !DetMatched(r.value.pairs, d)) ==>
      !Correct(r.value.gts[g].box, r.value.dets[d].box, thr)
  {
    var D :- ParseEntries(det, boxOf);
    var G :- ParseEntries(gt, boxOf);
    var m :- MatchAll(G, D, thr);
    SameClassBound(G, D, m.pairs);
    var fn := Seqs.CountFalse(m.gDone);
    var fp := m.mism + Seqs.CountFalse(m.dDone);
    return Ok(Comparison(Counts(fp, m.tp, fn, 0), G, D, m.pairs));
  }

  lemma {:induction false} SameClassBound(G: seq<LabelLine>, D: seq<LabelLine>, pairs: seq<Pair>)
    requires InRange(G, D, pairs)
    ensures SameClass(G, D, pairs) <= |pairs|
  {
    if |pairs| > 0 {
      SameClassBound(G, D, pairs[..|pairs| - 1]);
    }
  }

  /** The non-empty lines of a file's text. */
  function NonEmpty(lines: seq<string>): (r: seq<string>)
    ensures LineCount(r) == LineCount(lines) == |r|
  {
    var r := Seqs.Filter(IsLine(), lines);
    Seqs.FilterAll(IsLine(), r);
    r
  }

  /** What one file contributes: all its lines as false positives
      (detections only) or as false negatives (ground truth only); when
      compared, true and false positives are its detection lines and true
      positives and false negatives at most its ground-truth lines. */
  predicate FileFacts(f: string, det: map<string, seq<string>>, gt: map<string, seq<string>>, c: Counts) {
    (f in det && f !in gt ==> c == Counts(LineCount(det[f]), 0, 0, 0)) &&
    (f !in det && f in gt ==> c == Counts(0, 0, LineCount(gt[f]), 0)) &&
    (f in det && f in gt ==> c.tp + c.fp == LineCount(det[f]) && c.tp + c.fn <= LineCount(gt[f]) && c.tn == 0)
  }

  /** One file name of the union (lines 124-152): compared when both
      directories have it, otherwise all its lines are false positives
      (detections only) or false negatives (ground truth only). */
  method FileCounts(f: string, det: map<string, seq<string>>, gt: map<string, seq<string>>,
                    boxOf: string -> Result<Box>, thr: real) returns (r: Result<Counts>)
    requires f in det || f in gt
    ensures r.Ok? ==> FileFacts(f, det, gt, r.value)
    ensures r.Err? ==> f in det && f in gt
  {
    if f in det && f in gt {
      var c :- CompareBoxes(NonEmpty(det[f]), NonEmpty(gt[f]), boxOf, thr);
      return Ok(c.counts);
    } else if f in det {
      return Ok(Counts(LineCount(det[f]), 0, 0, 0));
    } else {
      return Ok(Counts(0, 0, LineCount(gt[f]), 0));
    }
  }

  // ---------------------------------------------------------------- all files

  /** The sum of `w` over a set of names. */
  ghost function SumOver(names: set<string>, w: string -> nat): nat
  {
    if names == {} then 0
    else
      var f :| f in names;
      w(f) + SumOver(names - {f}, w)
  }

  lemma {:induction false} SumOverRemove(names: set<string>, w: string -> nat, x: string)
    requires x in names
    ensures SumOver(names, w) == w(x) + SumOver(names - {x}, w)
    decreases |names|
  {
    var f :| f in names && SumOver(names, w) == w(f) + SumOver(names - {f}, w);
    if f != x {
      SumOverRemove(names - {f}, w, x);
      SumOverRemove(names - {x}, w, f);
      assert names - {f} - {x} == names - {x} - {f};
    }
  }

  /** The sum of `w` over a list of names. */
  ghost function SumList(s: seq<string>, w: string -> nat): nat
  {
    if |s| == 0 then 0 else SumList(s[..|s| - 1], w) + w(s[|s| - 1])
  }

  /** No name occurs twice. */
  predicate Distinct(s: seq<string>) {
    forall i, j :: 0 <= i < j < |s| ==> s[i] != s[j]
  }

  /** Summing over a duplicate-free listing of a set is summing over the set. */
  lemma {:induction false} SumListIsSumOver(s: seq<string>, names: set<string>, w: string -> nat)
    requires Distinct(s)
    requires forall x :: x in s <==> x in names
    ensures SumList(s, w) == SumOver(names, w)
    decreases |s|
  {
    if |s| == 0 {
      assert names == {};
    } else {
      var last := s[|s| - 1];
      var front := s[..|s| - 1];
      assert forall x :: x in front <==> x in names - {last} by {
        forall x ensures x in front <==> x in names - {last} {
          if x in front {
            var i :| 0 <= i < |front| && front[i] == x;
            assert s[i] == x;
          }
          if x in names - {last} {
            assert x in s;
            var i :| 0 <= i < |s| && s[i] == x;
            assert i < |s| - 1 && front[i] == x;
          }
        }
      }
      SumListIsSumOver(front, names - {last}, w);
      SumOverRemove(names, w, last);
    }
  }

  /** Number of non-empty lines of a file, zero when it is absent. */
  function LinesIn(files: map<string, seq<string>>): string -> nat {
    (f: string) => if f in files then LineCount(files[f]) else 0
  }

  /** `all_filenames` (lines 116-118): the union of the two directories'
      label file names, without the class list. */
  function Names(det: map<string, seq<string>>, gt: map<string, seq<string>>): set<string>
  {
    (det.Keys + gt.Keys) - {ClassesFile}
  }

  /** No label file is in both directories. */
  predicate Disjoint(det: map<string, seq<string>>, gt: map<string, seq<string>>) {
    forall f :: f in Names(det, gt) ==> !(f in det && f in gt)
  }

  /** What totals satisfy, given the detection lines `dets` and the
      ground-truth lines `gts` of the files counted so far. */
  predicate Bounded(acc: Counts, dets: nat, gts: nat, disjoint: bool) {
    acc.tn == 0 && acc.tp + acc.fp == dets && acc.tp + acc.fn <= gts &&
    (disjoint ==> acc.tp == 0 && acc.fp == dets && acc.fn == gts)
  }

  /** What the totals over the listed files `done` satisfy. */
  ghost predicate Totals(det: map<string, seq<string>>, gt: map<string, seq<string>>, done: seq<string>, acc: Counts) {
    Bounded(acc, SumList(done, LinesIn(det)), SumList(done, LinesIn(gt)), Disjoint(det, gt))
  }

  function Add(a: Counts, b: Counts): Counts {
    Counts(a.fp + b.fp, a.tp + b.tp, a.fn + b.fn, a.tn + b.tn)
  }

  /** Adding one more file's counts keeps the totals. */
  lemma AddFile(det: map<string, seq<string>>, gt: map<string, seq<string>>, done: seq<string>, acc: Counts, f: string, c: Counts)
    requires Totals(det, gt, done, acc) && f in Names(det, gt)
    requires FileFacts(f, det, gt, c)
    ensures Totals(det, gt, done + [f], Add(acc, c))
  {
    assert (done + [f])[..|done|] == done;
  }

  /** One iteration of the file loop: the totals grow by one file, or the
      comparison of a file present on both sides fails. */
  method Step(det: map<string, seq<string>>, gt: map<string, seq<string>>, ghost done: seq<string>, acc: Counts,
              f: string, boxOf: string -> Result<Box>, thr: real) returns (r: Result<Counts>)
    requires Totals(det, gt, done, acc) && f in Names(det, gt)
    ensures r.Ok? ==> Totals(det, gt, done + [f], r.value)
    ensures r.Err? ==> f in det && f in gt
  {
    var c :- FileCounts(f, det, gt, boxOf, thr);
    AddFile(det, gt, done, acc, f, c);
    r := Ok(Add(acc, c));
  }

  /** The elements of a set listed once each, in some order (the order in
      which Python happens to iterate the set). */
  method ListNames(names: set<string>) returns (s: seq<string>)
    ensures Distinct(s)
    ensures forall x :: x in s <==> x in names
  {
    s := [];
    var todo := names;
    while todo != {}
      invariant todo <= names
      invariant Distinct(s)
      invariant forall x :: x in s <==> x in names && x !in todo
      decreases |todo|
    {
      var f :| f in todo;
      s := s + [f];
      todo := todo - {f};
    }
  }

  /** The totals `sumdata` of lines 122-152: true and false positives
      together are all detection lines, true positives and false
      negatives together are at most the ground-truth lines, and with no
      file in common every detection is a false positive and every ground
      truth a false negative. Files are visited in any order. */
  method Aggregate(det: map<string, seq<string>>, gt: map<string, seq<string>>, boxOf: string -> Result<Box>, thr: real)
    returns (r: Result<Counts>)
    ensures r.Ok? ==> r.value.tn == 0
    ensures r.Ok? ==> r.value.tp + r.value.fp == SumOver(Names(det, gt), LinesIn(det))
    ensures r.Ok? ==> r.value.tp + r.value.fn <= SumOver(Names(det, gt), LinesIn(gt))
    ensures Disjoint(det, gt) ==> r == Ok(Counts(SumOver(Names(det, gt), LinesIn(det)), 0, SumOver(Names(det, gt), LinesIn(gt)), 0))
    ensures r.Err? ==> exists f :: f in Names(det, gt) && f in det && f in gt
  {
    var order := ListNames(Names(det, gt));
    var acc := Counts(0, 0, 0, 0);
    for i := 0 to |order|
      invariant Totals(det, gt, order[..i], acc)
    {
      assert order[..i + 1] == order[..i] + [order[i]];
      var next := Step(det, gt, order[..i], acc, order[i], boxOf, thr);
      if next.Err? {
        return Err(next.error);
      }
      acc := next.value;
    }
    assert order[..|order|] == order;
    SumListIsSumOver(order, Names(det, gt), LinesIn(det));
    SumListIsSumOver(order, Names(det, gt), LinesIn(gt));
    r := Ok(acc);
  }

  // ---------------------------------------------------------------- scores

  datatype Scores = Scores(precision: real, recall: real, f1: real)

  /** Lines 157-159. Each division raises on a zero denominator, so the
      scores exist exactly when there is a true positive; F1 is then
      2 tp / (2 tp + fp + fn) and precision and recall lie in (0, 1]. */
  function Score(c: Counts): (r: Result<Scores>)
    ensures r.Ok? <==> c.tp > 0
    ensures r.Err? ==> r.error == ZeroDivisionError
    ensures r.Ok? ==> 0.0 < r.value.precision <= 1.0 && 0.0 < r.value.recall <= 1.0
    ensures r.Ok? ==> r.value.f1 == (2 * c.tp) as real / (2 * c.tp + c.fp + c.fn) as real
  {
    ScoreCases(c);
    if c.tp + c.fp == 0 then Err(ZeroDivisionError)
    else
      var precision := c.tp as real / (c.tp + c.fp) as real;
      if c.tp + c.fn == 0 then Err(ZeroDivisionError)
      else
        var recall := c.tp as real / (c.tp + c.fn) as real;
        if precision + recall == 0.0 then Err(ZeroDivisionError)
        else Ok(Scores(precision, recall, 2.0 * ((precision * recall) / (precision + recall))))
  }

  lemma ScoreCases(c: Counts)
    ensures c.tp > 0 ==> c.tp + c.fp != 0 && c.tp + c.fn != 0
    ensures c.tp > 0 ==> var p := c.tp as real / (c.tp + c.fp) as real; var r := c.tp as real / (c.tp + c.fn) as real;
      0.0 < p <= 1.0 && 0.0 < r <= 1.0 && p + r != 0.0 &&
      2.0 * ((p * r) / (p + r)) == (2 * c.tp) as real / (2 * c.tp + c.fp + c.fn) as real
    ensures c.tp == 0 ==> (c.tp + c.fp == 0 || c.tp + c.fn == 0 ||
      c.tp as real / (c.tp + c.fp) as real + c.tp as real / (c.tp + c.fn) as real == 0.0)
  {
    if c.tp > 0 {
      ScoresWhenMatched(c);
    } else {
      ScoresWhenUnmatched(c);
    }
  }

  /** With a true positive no denominator of lines 157-159 is zero. */
  lemma ScoresWhenMatched(c: Counts)
    requires c.tp > 0
    ensures c.tp + c.fp != 0 && c.tp + c.fn != 0
    ensures var p := c.tp as real / (c.tp + c.fp) as real; var r := c.tp as real / (c.tp + c.fn) as real;
      0.0 < p <= 1.0 && 0.0 < r <= 1.0 && p + r != 0.0 &&
      2.0 * ((p * r) / (p + r)) == (2 * c.tp) as real / (2 * c.tp + c.fp + c.fn) as real
  {
    var t, f, n := c.tp as real, c.fp as real, c.fn as real;
    assert (c.tp + c.fp) as real == t + f && (c.tp + c.fn) as real == t + n;
    assert (2 * c.tp) as real == 2.0 * t && (2 * c.tp + c.fp + c.fn) as real == 2.0 * t + f + n;
    Ratio(t, t + f);
    Ratio(t, t + n);
    F1Identity(t, f, n);
  }

  /** Without a true positive some denominator of lines 157-159 is zero. */
  lemma ScoresWhenUnmatched(c: Counts)
    requires c.tp == 0
    ensures c.tp + c.fp == 0 || c.tp + c.fn == 0 ||
      c.tp as real / (c.tp + c.fp) as real + c.tp as real / (c.tp + c.fn) as real == 0.0
  {
  }

  /** A part over a whole that is at least as large. */
  lemma Ratio(t: real, d: real)
    requires 0.0 < t <= d
    ensures 0.0 < t / d <= 1.0
  {
    assert t / d * d == t;
  }

  /** The harmonic mean of t / (t + f) and t / (t + n) is 2t / (2t + f + n). */
  lemma F1Identity(t: real, f: real, n: real)
    requires t > 0.0 && f >= 0.0 && n >= 0.0
    ensures var p := t / (t + f); var r := t / (t + n);
      p + r > 0.0 && 2.0 * ((p * r) / (p + r)) == 2.0 * t / (2.0 * t + f + n)
  {
    var a, b := t + f, t + n;
    var p, r := t / a, t / b;
    Ratio(t, a);
    Ratio(t, b);
    HarmonicProduct(t, a, b);
    DivUnique(p * r, p + r, t / (a + b));
    TwiceDiv(t, a + b);
  }

  /** t / (a + b) times the sum t / a + t / b is the product of the two. */
  lemma HarmonicProduct(t: real, a: real, b: real)
    requires t > 0.0 && a > 0.0 && b > 0.0
    ensures t / (a + b) * (t / a + t / b) == (t / a) * (t / b)
  {
    var p, r, x := t / a, t / b, t / (a + b);
    assert p * a == t && r * b == t && x * (a + b) == t;
    assert x * (p + r) * (a * b) == t * t by {
      assert (p + r) * (a * b) == t * (a + b);
    }
    assert p * r * (a * b) == t * t by {
      assert p * r * (a * b) == (p * a) * (r * b);
    }
    MulCancel(x * (p + r), p * r, a * b);
  }

  lemma MulCancel(u: real, v: real, k: real)
    requires k != 0.0 && u * k == v * k
    ensures u == v
  {
    assert (u - v) * k == 0.0;
  }

  lemma DivUnique(u: real, v: real, x: real)
    requires v != 0.0 && x * v == u
    ensures u / v == x
  {
    MulCancel(u / v, x, v);
  }

  lemma TwiceDiv(t: real, d: real)
    requires d != 0.0
    ensures 2.0 * (t / d) == 2.0 * t / d
  {
    DivUnique(2.0 * t, d, 2.0 * (t / d));
  }
}
