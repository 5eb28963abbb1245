/** The decision step of src/Decision/WeightedDecision.py once the boxes of
    an image are condensed: keep the dominant class of every box, drop boxes
    whose dominant class is above the ignore threshold, and write one row per
    remaining box to the final decision table. */
module WeightedDecision {
  import opened Wrappers
  import opened Analysis
  import Text
  import Seqs
  import Rows
  import FinalStorage
  import DetectionStorage

  /** A condensed box with only its dominant class, `(box, {cls: prob})`. */
  datatype Major = Major(box: Box, cls: string, prob: real)

  /** The message of Python's `max` on an empty iterable. */
  const EmptyMaxMsg: string := "max() arg is an empty sequence"

  /** `k` has the largest fused value of `m`. */
  predicate IsMax(m: map<string, real>, k: string) {
    k in m && forall j :: j in m ==> m[j] <= m[k]
  }

  /** `max(votings, key=votings.get)`: a key of maximal value. Which of
      several tied keys Python returns depends on the dict's order, which
      comes from iterating a set, so any maximal key is accepted. */
  method ArgMax(m: map<string, real>) returns (r: Result<string>)
    ensures r.Err? <==> |m| == 0
    ensures r.Err? ==> r.error == ValueError(EmptyMaxMsg)
    ensures r.Ok? ==> IsMax(m, r.value)
  {
    if |m| == 0 {
      return Err(ValueError(EmptyMaxMsg));
    }
    var best :| best in m;
    var todo := m.Keys - {best};
    while todo != {}
      invariant best in m && todo <= m.Keys
      invariant forall j :: j in m && j !in todo ==> m[j] <= m[best]
      decreases |todo|
    {
      var k :| k in todo;
      if m[k] > m[best] {
        best := k;
      }
      todo := todo - {k};
    }
    return Ok(best);
  }

  /** Lines 71-75: one single-class entry per condensed box, in order. */
  method SelectMajor(cv: seq<(Box, map<string, real>)>) returns (r: Result<seq<Major>>)
    ensures r.Err? <==> exists i :: 0 <= i < |cv| && |cv[i].1| == 0
    ensures r.Err? ==> r.error == ValueError(EmptyMaxMsg)
    ensures r.Ok? ==> |r.value| == |cv|
    ensures r.Ok? ==> forall i :: 0 <= i < |cv| ==>
      r.value[i].box == cv[i].0 && IsMax(cv[i].1, r.value[i].cls) && r.value[i].prob == cv[i].1[r.value[i].cls]
  {
    var out: seq<Major> := [];
    for i := 0 to |cv|
      invariant |out| == i
      invariant forall j :: 0 <= j < i ==>
        out[j].box == cv[j].0 && IsMax(cv[j].1, out[j].cls) && out[j].prob == cv[j].1[out[j].cls]
    {
      var k := ArgMax(cv[i].1);
      if k.Err? {
        return Err(k.error);
      }
      out := out + [Major(cv[i].0, k.value, cv[i].1[k.value])];
    }
    return Ok(out);
  }

  /** An entry survives the ignore filter: its class reads as an integer
      not above `ignore_classes_higher`. */
  predicate Kept(m: Major, maxAllowed: int) {
    Text.ParseInt(m.cls).Ok? && Text.ParseInt(m.cls).value <= maxAllowed
  }

  function KeptBy(maxAllowed: int): Major -> bool {
    (m: Major) => Kept(m, maxAllowed)
  }

  /** Line 81: the comprehension keeping the entries whose class is at most
      `maxAllowed`, in order; `int()` of a class that is no integer raises. */
  function FilterIgnored(ms: seq<Major>, maxAllowed: int): (r: Result<seq<Major>>)
    ensures r.Ok? <==> forall i :: 0 <= i < |ms| ==> Text.ParseInt(ms[i].cls).Ok?
    ensures r.Err? ==> exists i :: 0 <= i < |ms| && Text.ParseInt(ms[i].cls) == Err(r.error)
    ensures r.Ok? ==> r.value == Seqs.Filter(KeptBy(maxAllowed), ms)
  {
    if |ms| == 0 then Ok([])
    else
      var head := Text.ParseInt(ms[0].cls);
      if head.Err? then Err(head.error)
      else
        var rest := FilterIgnored(ms[1..], maxAllowed);
        if rest.Err? then
          assert exists i :: 1 <= i < |ms| && Text.ParseInt(ms[i].cls) == Err(rest.error) by {
            var i :| 0 <= i < |ms[1..]| && Text.ParseInt(ms[1..][i].cls) == Err(rest.error);
            assert Text.ParseInt(ms[i + 1].cls) == Err(rest.error);
          }
          Err(rest.error)
        else
          assert forall i :: 0 <= i < |ms| ==> Text.ParseInt(ms[i].cls).Ok? by {
            forall i | 0 <= i < |ms| ensures Text.ParseInt(ms[i].cls).Ok? {
              if i > 0 {
                assert ms[i] == ms[1..][i - 1];
              }
            }
          }
          Ok(if head.value <= maxAllowed then [ms[0]] + rest.value else rest.value)
  }

  /** Survivors are input entries, in input order, none of them above the
      threshold; an entry whose dominant class is ignored is dropped as a
      whole, so no runner-up class takes its place. */
  lemma FilterIgnoredSurvivors(ms: seq<Major>, maxAllowed: int)
    requires FilterIgnored(ms, maxAllowed).Ok?
    ensures forall m :: m in FilterIgnored(ms, maxAllowed).value <==> m in ms && Kept(m, maxAllowed)
    ensures forall m :: m in ms && Text.ParseInt(m.cls).value > maxAllowed ==> m !in FilterIgnored(ms, maxAllowed).value
  {
    forall m ensures m in FilterIgnored(ms, maxAllowed).value <==> m in ms && Kept(m, maxAllowed) {
      Seqs.FilterMembership(KeptBy(maxAllowed), ms, m);
    }
  }

  /** Lines 87-104: the row written for one surviving entry. */
  function RowFor(det: DetectionStorage.Store, image: string, m: Major): (r: Result<FinalStorage.Decision>)
    ensures r.Ok? <==> Text.ParseInt(m.cls).Ok? && DetectionStorage.GetClassNameById(det, Text.ParseInt(m.cls).value).Ok?
    ensures r.Ok? ==> r.value.imageFullpath == image && r.value.imageName == Text.BaseName(image)
    ensures r.Ok? ==> Text.ParseInt(m.cls) == Ok(r.value.classNumeric)
    ensures r.Ok? ==> DetectionStorage.GetClassNameById(det, r.value.classNumeric) == Ok(r.value.classStr)
    ensures r.Ok? ==> r.value.probability == m.prob
    ensures r.Ok? ==> (r.value.xMin, r.value.xMax, r.value.yMin, r.value.yMax) == ToXminXmax(m.box)
  {
    var (xMin, xMax, yMin, yMax) := ToXminXmax(m.box);
    var cls :- Text.ParseInt(m.cls);
    var name :- DetectionStorage.GetClassNameById(det, cls);
    Ok(FinalStorage.Decision(image, Text.BaseName(image), cls, name, m.prob, xMin, xMax, yMin, yMax))
  }

  function RowFn(det: DetectionStorage.Store, image: string): Major -> Result<FinalStorage.Decision> {
    (m: Major) => RowFor(det, image, m)
  }

  /** Every entry of `ms` yields a row without raising. */
  predicate AllRowsOk(f: Major -> Result<FinalStorage.Decision>, ms: seq<Major>) {
    forall i :: 0 <= i < |ms| ==> f(ms[i]).Ok?
  }

  /** `d` is the row of some entry of `ms`. */
  predicate RowOfSome(f: Major -> Result<FinalStorage.Decision>, ms: seq<Major>, d: FinalStorage.Decision) {
    exists i :: 0 <= i < |ms| && f(ms[i]) == Ok(d)
  }

  /** Some entry of `ms` raises `e`. */
  predicate RaisesAt(f: Major -> Result<FinalStorage.Decision>, ms: seq<Major>, e: Error) {
    exists i :: 0 <= i < |ms| && f(ms[i]) == Err(e)
  }

  lemma RowsCons(f: Major -> Result<FinalStorage.Decision>, ms: seq<Major>)
    requires |ms| > 0
    ensures AllRowsOk(f, ms) <==> f(ms[0]).Ok? && AllRowsOk(f, ms[1..])
    ensures forall e :: RaisesAt(f, ms[1..], e) ==> RaisesAt(f, ms, e)
    ensures forall d :: RowOfSome(f, ms, d) <==> f(ms[0]) == Ok(d) || RowOfSome(f, ms[1..], d)
  {
    assert forall i :: 0 < i < |ms| ==> ms[i] == ms[1..][i - 1];
    forall e | RaisesAt(f, ms[1..], e) ensures RaisesAt(f, ms, e) {
      var i :| 0 <= i < |ms[1..]| && f(ms[1..][i]) == Err(e);
      assert f(ms[i + 1]) == Err(e);
    }
    forall d | RowOfSome(f, ms[1..], d) ensures RowOfSome(f, ms, d) {
      var i :| 0 <= i < |ms[1..]| && f(ms[1..][i]) == Ok(d);
      assert f(ms[i + 1]) == Ok(d);
    }
  }

  /** The store loop of lines 86-104, stopping at the first entry that raises. */
  function StoreRows(rows: seq<FinalStorage.Decision>, det: DetectionStorage.Store, image: string, ms: seq<Major>)
    : (r: Result<seq<FinalStorage.Decision>>)
    ensures r.Ok? <==> AllRowsOk(RowFn(det, image), ms)
    ensures r.Err? ==> RaisesAt(RowFn(det, image), ms, r.error)
    ensures r.Ok? ==> forall d :: d in r.value <==> d in rows || RowOfSome(RowFn(det, image), ms, d)
    ensures r.Ok? && Rows.NoDuplicates(rows) ==> Rows.NoDuplicates(r.value)
    decreases |ms|
  {
    if |ms| == 0 then Ok(rows)
    else
      RowsCons(RowFn(det, image), ms);
      var head := RowFn(det, image)(ms[0]);
      if head.Err? then
        assert RaisesAt(RowFn(det, image), ms, head.error);
        Err(head.error)
      else
        StoreRows(FinalStorage.Store(rows, head.value), det, image, ms[1..])
  }

  /** `d` is a row for `image` built from one condensed box of `cv`: its
      class is a maximal class of that box, not above `maxAllowed`, with
      the box's fused value, and its corners are the box's. */
  ghost predicate FromVote(cv: seq<(Box, map<string, real>)>, image: string, maxAllowed: int, d: FinalStorage.Decision) {
    d.imageFullpath == image && d.classNumeric <= maxAllowed &&
    exists i, k :: (0 <= i < |cv| && IsMax(cv[i].1, k) && Text.ParseInt(k) == Ok(d.classNumeric) &&
      d.probability == cv[i].1[k] && (d.xMin, d.xMax, d.yMin, d.yMax) == ToXminXmax(cv[i].0))
  }

  /** A row stored for a surviving entry comes from a condensed box. */
  lemma RowFromVote(cv: seq<(Box, map<string, real>)>, majors: seq<Major>, kept: seq<Major>,
                    det: DetectionStorage.Store, image: string, maxAllowed: int, d: FinalStorage.Decision)
    requires |majors| == |cv|
    requires forall i :: 0 <= i < |cv| ==>
      majors[i].box == cv[i].0 && IsMax(cv[i].1, majors[i].cls) && majors[i].prob == cv[i].1[majors[i].cls]
    requires forall m :: m in kept <==> m in majors && Kept(m, maxAllowed)
    requires RowOfSome(RowFn(det, image), kept, d)
    ensures FromVote(cv, image, maxAllowed, d)
  {
    var j :| 0 <= j < |kept| && RowFn(det, image)(kept[j]) == Ok(d);
    var m := kept[j];
    assert m in majors && Kept(m, maxAllowed);
    var i :| 0 <= i < |majors| && majors[i] == m;
    assert IsMax(cv[i].1, m.cls) && Text.ParseInt(m.cls) == Ok(d.classNumeric);
  }

  /** `majors` holds, box by box, the box of `cv` with one of its dominant
      classes and that class's fused value. */
  predicate MajorsOf(cv: seq<(Box, map<string, real>)>, majors: seq<Major>) {
    |majors| == |cv| &&
    forall i :: 0 <= i < |cv| ==>
      majors[i].box == cv[i].0 && IsMax(cv[i].1, majors[i].cls) && majors[i].prob == cv[i].1[majors[i].cls]
  }

  /** `d` is the row of an entry of `majors` that survives the filter. */
  predicate KeptRowOf(f: Major -> Result<FinalStorage.Decision>, majors: seq<Major>, maxAllowed: int, d: FinalStorage.Decision) {
    exists i :: 0 <= i < |majors| && Kept(majors[i], maxAllowed) && f(majors[i]) == Ok(d)
  }

  /** Rows over the survivors are rows over the kept entries of `majors`. */
  lemma KeptRows(f: Major -> Result<FinalStorage.Decision>, majors: seq<Major>, kept: seq<Major>, maxAllowed: int)
    requires forall m :: m in kept <==> m in majors && Kept(m, maxAllowed)
    ensures AllRowsOk(f, kept) <==> forall i :: 0 <= i < |majors| && Kept(majors[i], maxAllowed) ==> f(majors[i]).Ok?
    ensures forall d :: RowOfSome(f, kept, d) <==> KeptRowOf(f, majors, maxAllowed, d)
  {
    if AllRowsOk(f, kept) {
      forall i | 0 <= i < |majors| && Kept(majors[i], maxAllowed) ensures f(majors[i]).Ok? {
        assert majors[i] in kept;
      }
    }
    if forall i :: 0 <= i < |majors| && Kept(majors[i], maxAllowed) ==> f(majors[i]).Ok? {
      forall j | 0 <= j < |kept| ensures f(kept[j]).Ok? {
        assert kept[j] in majors;
      }
    }
    forall d ensures RowOfSome(f, kept, d) <==> KeptRowOf(f, majors, maxAllowed, d) {
      if RowOfSome(f, kept, d) {
        var j :| 0 <= j < |kept| && f(kept[j]) == Ok(d);
        assert kept[j] in majors;
        var i :| 0 <= i < |majors| && majors[i] == kept[j];
        assert Kept(majors[i], maxAllowed) && f(majors[i]) == Ok(d);
      }
      if KeptRowOf(f, majors, maxAllowed, d) {
        var i :| 0 <= i < |majors| && Kept(majors[i], maxAllowed) && f(majors[i]) == Ok(d);
        assert majors[i] in kept;
        var j :| 0 <= j < |kept| && kept[j] == majors[i];
        assert f(kept[j]) == Ok(d);
      }
    }
  }

  /** Lines 69-104 for one image. `majors` is the dominant class picked for
      each condensed box (any maximal one, as Python's `max` over a dict in
      set order may pick any). The step succeeds exactly when every box has
      a class, every picked class reads as an integer and every surviving
      entry finds its class name; then the rows are the old rows plus
      exactly one row per surviving entry. Every new row is for this image,
      carries a maximal class of one box, not above `maxAllowed`, with its
      fused value, and has the box in corner form. */
  method DecideImage(rows: seq<FinalStorage.Decision>, det: DetectionStorage.Store, image: string,
                     cv: seq<(Box, map<string, real>)>, maxAllowed: int)
    returns (majors: seq<Major>, r: Result<seq<FinalStorage.Decision>>)
    ensures (exists i :: 0 <= i < |cv| && |cv[i].1| == 0) ==> r == Err(ValueError(EmptyMaxMsg))
    ensures (forall i :: 0 <= i < |cv| ==> |cv[i].1| > 0) ==> MajorsOf(cv, majors)
    ensures r.Ok? <==>
      (forall i :: 0 <= i < |cv| ==> |cv[i].1| > 0) &&
      (forall i :: 0 <= i < |majors| ==> Text.ParseInt(majors[i].cls).Ok?) &&
      (forall i :: 0 <= i < |majors| && Kept(majors[i], maxAllowed) ==> RowFor(det, image, majors[i]).Ok?)
    ensures r.Ok? ==> forall i :: 0 <= i < |majors| && Kept(majors[i], maxAllowed) ==>
      RowFor(det, image, majors[i]).value in r.value
    ensures r.Ok? ==> forall d :: d in r.value <==> d in rows || KeptRowOf(RowFn(det, image), majors, maxAllowed, d)
    ensures r.Ok? ==> forall d :: d in rows ==> d in r.value
    ensures r.Ok? ==> forall d :: d in r.value && d !in rows ==> FromVote(cv, image, maxAllowed, d)
  {
    var selected := SelectMajor(cv);
    if selected.Err? {
      return [], Err(selected.error);
    }
    majors := selected.value;
    var kept := FilterIgnored(majors, maxAllowed);
    if kept.Err? {
      return majors, Err(kept.error);
    }
    FilterIgnoredSurvivors(majors, maxAllowed);
    KeptRows(RowFn(det, image), majors, kept.value, maxAllowed);
    r := StoreRows(rows, det, image, kept.value);
    if r.Ok? {
      forall d | d in r.value && d !in rows ensures FromVote(cv, image, maxAllowed, d) {
        RowFromVote(cv, majors, kept.value, det, image, maxAllowed, d);
      }
      forall i | 0 <= i < |majors| && Kept(majors[i], maxAllowed) ensures RowFor(det, image, majors[i]).value in r.value {
        assert RowFn(det, image)(majors[i]) == Ok(RowFor(det, image, majors[i]).value);
        assert KeptRowOf(RowFn(det, image), majors, maxAllowed, RowFor(det, image, majors[i]).value);
      }
    }
  }
}
