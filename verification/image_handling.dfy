/** The integer box helpers of src/wolf_utils/ImageHandling.py. Boxes are
    (x, y, w, h) with (x, y) the top-left corner. */
module ImageHandling {
  import opened Numeric
  import Seqs

  datatype Rect = Rect(x: int, y: int, w: int, h: int)

  /** `outer` covers `inner` on both axes (edges included). */
  predicate Contains(outer: Rect, inner: Rect) {
    outer.x <= inner.x && inner.x + inner.w <= outer.x + outer.w &&
    outer.y <= inner.y && inner.y + inner.h <= outer.y + outer.h
  }

  lemma ContainsTransitive(a: Rect, b: Rect, c: Rect)
    requires Contains(a, b) && Contains(b, c)
    ensures Contains(a, c)
  {
  }

  /** `union`: the smallest box containing both. */
  function Union(a: Rect, b: Rect): (r: Rect)
    ensures Contains(r, a) && Contains(r, b)
    ensures forall c :: Contains(c, a) && Contains(c, b) ==> Contains(c, r)
  {
    var x := MinI(a.x, b.x);
    var y := MinI(a.y, b.y);
    Rect(x, y, MaxI(a.x + a.w, b.x + b.w) - x, MaxI(a.y + a.h, b.y + b.h) - y)
  }

  lemma UnionCommutative(a: Rect, b: Rect)
    ensures Union(a, b) == Union(b, a)
  {
  }

  /** The integer point (px, py) lies in `r`, edges included. */
  predicate HasPoint(r: Rect, px: int, py: int) {
    r.x <= px <= r.x + r.w && r.y <= py <= r.y + r.h
  }

  /** `intersect`: true unless the overlap is negative on some axis, so
      boxes that only touch intersect. For boxes of non-negative size this
      is exactly sharing an integer point. */
  function Intersect(a: Rect, b: Rect): (r: bool)
    ensures a.w >= 0 && a.h >= 0 && b.w >= 0 && b.h >= 0 ==>
      (r <==> exists px, py :: HasPoint(a, px, py) && HasPoint(b, px, py))
  {
    var x := MaxI(a.x, b.x);
    var y := MaxI(a.y, b.y);
    var w := MinI(a.x + a.w, b.x + b.w) - x;
    var h := MinI(a.y + a.h, b.y + b.h) - y;
    var r := !(h < 0 || w < 0);
    assert r ==> HasPoint(a, x, y) && HasPoint(b, x, y);
    r
  }

  lemma IntersectSymmetric(a: Rect, b: Rect)
    ensures Intersect(a, b) == Intersect(b, a)
  {
  }

  /** The smallest box containing every box of a non-empty `rs`. */
  function Hull(rs: seq<Rect>): (r: Rect)
    requires |rs| > 0
    ensures forall k :: 0 <= k < |rs| ==> Contains(r, rs[k])
    ensures forall c :: (forall k :: 0 <= k < |rs| ==> Contains(c, rs[k])) ==> Contains(c, r)
    decreases |rs|
  {
    if |rs| == 1 then rs[0]
    else
      assert forall k :: 1 <= k < |rs| ==> rs[k] == rs[1..][k - 1];
      Union(rs[0], Hull(rs[1..]))
  }

  /** `outer` contains every box of `rs`. */
  predicate InsideAll(outer: Rect, rs: seq<Rect>) {
    forall k :: 0 <= k < |rs| ==> Contains(outer, rs[k])
  }

  /** Replacing a box by its union with another box of the list keeps the
      list inside `outer`. */
  lemma InsideAllUnion(outer: Rect, rs: seq<Rect>, i: nat, j: nat)
    requires InsideAll(outer, rs) && i < |rs| && j < |rs|
    ensures InsideAll(outer, rs[i := Union(rs[i], rs[j])])
  {
  }

  /** Some box of `rs` contains `x`. */
  predicate Covered(rs: seq<Rect>, x: Rect) {
    exists t :: t in rs && Contains(t, x)
  }

  lemma CoveredAppend(rs: seq<Rect>, t: Rect, x: Rect)
    requires Covered(rs, x)
    ensures Covered(rs + [t], x)
  {
    var u :| u in rs && Contains(u, x);
    assert u in rs + [t];
  }

  /** One pass of `group_rectangles` (lines 57-71): each untested box
      absorbs every later untested box it intersects, restarting its scan
      after each merge, and the grown boxes are kept in order. */
  method GroupPass(rects: seq<Rect>) returns (final: seq<Rect>)
    ensures |final| <= |rects|
    ensures forall k :: 0 <= k < |rects| ==> Covered(final, rects[k])
    ensures |rects| > 0 ==> forall k :: 0 <= k < |final| ==> Contains(Hull(rects), final[k])
  {
    ghost var hull := if |rects| > 0 then Hull(rects) else Rect(0, 0, 0, 0);
    var rec := rects;
    var tested := seq(|rects|, _ => false);
    final := [];
    var i := 0;
    while i < |rec|
      invariant 0 <= i <= |rec| == |rects| == |tested|
      invariant |final| <= i
      invariant forall k :: i <= k < |rec| ==> rec[k] == rects[k]
      invariant forall k :: 0 <= k < |rects| && (k < i || tested[k]) ==> Covered(final, rects[k])
      invariant InsideAll(hull, rec) && InsideAll(hull, final)
    {
      if !tested[i] {
        var j := i + 1;
        while j < |rec|
          invariant i + 1 <= j <= |rec| == |rects| == |tested|
          invariant !tested[i]
          invariant Contains(rec[i], rects[i])
          invariant forall k :: i < k < |rec| ==> rec[k] == rects[k]
          invariant forall k :: 0 <= k < |rects| && (k < i || tested[k]) ==>
            Covered(final, rects[k]) || Contains(rec[i], rects[k])
          invariant InsideAll(hull, rec)
          decreases Seqs.CountFalse(tested), |rec| - j
        {
          if !tested[j] && Intersect(rec[i], rec[j]) {
            var old_i := rec[i];
            InsideAllUnion(hull, rec, i, j);
            rec := rec[i := Union(rec[i], rec[j])];
            Seqs.CountFalseMark(tested, j);
            tested := tested[j := true];
            forall k | 0 <= k < |rects| && (k < i || tested[k])
              ensures Covered(final, rects[k]) || Contains(rec[i], rects[k])
            {
              if !Covered(final, rects[k]) && k != j {
                ContainsTransitive(rec[i], old_i, rects[k]);
              }
            }
            ContainsTransitive(rec[i], old_i, rects[i]);
            j := i;
          }
          j := j + 1;
        }
        forall k | 0 <= k < |rects| && (k < i || tested[k]) ensures Covered(final + [rec[i]], rects[k]) {
          if Covered(final, rects[k]) {
            CoveredAppend(final, rec[i], rects[k]);
          } else {
            assert rec[i] in final + [rec[i]];
          }
        }
        assert rec[i] in final + [rec[i]];
        final := final + [rec[i]];
      }
      i := i + 1;
    }
  }

  /** `group_rectangles`: `iterations` passes, each over the previous
      pass's result. Every input box ends up inside some output box and
      there are never more boxes than before. */
  method GroupRectangles(rects: seq<Rect>, iterations: int) returns (r: seq<Rect>)
    ensures |r| <= |rects|
    ensures iterations <= 0 ==> r == rects
    ensures forall k :: 0 <= k < |rects| ==> Covered(r, rects[k])
    ensures |rects| > 0 ==> forall k :: 0 <= k < |r| ==> Contains(Hull(rects), r[k])
  {
    r := rects;
    if iterations <= 0 {
      forall k | 0 <= k < |rects| ensures Covered(r, rects[k]) {
        assert rects[k] in r;
      }
      return;
    }
    for n := 0 to iterations
      invariant |r| <= |rects|
      invariant n == 0 ==> r == rects
      invariant n > 0 ==> forall k :: 0 <= k < |rects| ==> Covered(r, rects[k])
      invariant |rects| > 0 ==> forall k :: 0 <= k < |r| ==> Contains(Hull(rects), r[k])
    {
      var next := GroupPass(r);
      if |rects| > 0 {
        assert |r| > 0 by {
          if n > 0 {
            assert Covered(r, rects[0]);
            var t :| t in r && Contains(t, rects[0]);
            assert r[0..|r|] == r;
          }
        }
        forall k | 0 <= k < |next| ensures Contains(Hull(rects), next[k]) {
          ContainsTransitive(Hull(rects), Hull(r), next[k]);
        }
      }
      forall k | 0 <= k < |rects| ensures Covered(next, rects[k]) {
        var t: Rect;
        if n == 0 {
          t := rects[k];
        } else {
          t :| t in r && Contains(t, rects[k]);
        }
        var idx :| 0 <= idx < |r| && r[idx] == t;
        var u :| u in next && Contains(u, r[idx]);
        ContainsTransitive(u, t, rects[k]);
      }
      r := next;
    }
  }

  /** A size scaled by `f` and truncated by `int()`: a factor of at least 1
      never shrinks a non-negative size, and a factor of exactly 1 keeps
      it. */
  function Scale(v: int, f: real): (r: int)
    ensures v >= 0 && f >= 1.0 ==> r >= v
    ensures f == 1.0 ==> r == v
  {
    TruncOfInt(v);
    if v >= 0 && f >= 1.0 then
      ScaleUp(v as real, f);
      TruncMonotone(v as real, v as real * f);
      Trunc(v as real * f)
    else
      Trunc(v as real * f)
  }

  lemma ScaleUp(v: real, f: real)
    requires v >= 0.0 && f >= 1.0
    ensures v <= v * f
  {
    assert v * f - v == v * (f - 1.0);
  }

  /** The start of a side of length `nw` centred where the side [x, x + w]
      was centred, truncated by `int()`; unchanged when the length is. */
  function Recentre(x: int, w: int, nw: int): (r: int)
    ensures nw == w ==> r == x
  {
    TruncOfInt(x);
    Trunc(x as real + w as real / 2.0 - nw as real / 2.0)
  }

  /** One box of `extend_boxes`: width and height scaled by
      `1 + percent / 100` and truncated, recentred and truncated. */
  function ExtendBox(b: Rect, percent: real): (r: Rect)
    ensures percent >= 0.0 && b.w >= 0 && b.h >= 0 ==> r.w >= b.w && r.h >= b.h
    ensures percent == 0.0 ==> r == b
  {
    var f := 1.0 + percent / 100.0;
    var w := Scale(b.w, f);
    var h := Scale(b.h, f);
    Rect(Recentre(b.x, b.w, w), Recentre(b.y, b.h, h), w, h)
  }

  /** `extend_boxes`: every box extended, in order. */
  function ExtendBoxes(boxes: seq<Rect>, percent: real): (r: seq<Rect>)
    ensures |r| == |boxes|
    ensures forall i :: 0 <= i < |boxes| ==> r[i] == ExtendBox(boxes[i], percent)
    ensures percent == 0.0 ==> r == boxes
  {
    seq(|boxes|, i requires 0 <= i < |boxes| => ExtendBox(boxes[i], percent))
  }

  /** One box of `get_squared_boxes`: a square with side `max(w, h)` whose
      corner is the truncated corner of the square around the same centre. */
  function SquareBox(b: Rect): (r: Rect)
    ensures r.w == r.h == MaxI(b.w, b.h)
    ensures -1.0 < r.x as real - (b.x as real + b.w as real / 2.0 - r.w as real / 2.0) < 1.0
    ensures -1.0 < r.y as real - (b.y as real + b.h as real / 2.0 - r.h as real / 2.0) < 1.0
  {
    var s := MaxI(b.w, b.h);
    Rect(Trunc(b.x as real + b.w as real / 2.0 - s as real / 2.0), Trunc(b.y as real + b.h as real / 2.0 - s as real / 2.0), s, s)
  }

  /** `get_squared_boxes`: every box squared, in order. */
  function SquaredBoxes(boxes: seq<Rect>): (r: seq<Rect>)
    ensures |r| == |boxes|
    ensures forall i :: 0 <= i < |boxes| ==> r[i].w == r[i].h == MaxI(boxes[i].w, boxes[i].h)
  {
    seq(|boxes|, i requires 0 <= i < |boxes| => SquareBox(boxes[i]))
  }

  /** The tuple branch of `filter_small_boxes`: a 4-tuple whose w * h is
      below `minArea` is dropped; anything else is kept. */
  predicate LargeEnough(box: seq<int>, minArea: int) {
    |box| == 4 ==> box[2] * box[3] >= minArea
  }

  function LargeEnoughFn(minArea: int): seq<int> -> bool {
    (box: seq<int>) => LargeEnough(box, minArea)
  }

  /** `filter_small_boxes` over tuples and lists: the kept boxes in order. */
  method FilterSmallBoxes(boxes: seq<seq<int>>, minArea: int) returns (r: seq<seq<int>>)
    ensures r == Seqs.Filter(LargeEnoughFn(minArea), boxes)
    ensures forall b :: b in r <==> b in boxes && LargeEnough(b, minArea)
  {
    r := [];
    for i := 0 to |boxes|
      invariant r == Seqs.Filter(LargeEnoughFn(minArea), boxes[..i])
    {
      Seqs.FilterConcat(LargeEnoughFn(minArea), boxes[..i], [boxes[i]]);
      assert boxes[..i + 1] == boxes[..i] + [boxes[i]];
      if !(|boxes[i]| == 4 && boxes[i][2] * boxes[i][3] < minArea) {
        r := r + [boxes[i]];
      }
    }
    assert boxes[..|boxes|] == boxes;
    forall b ensures b in r <==> b in boxes && LargeEnough(b, minArea) {
      Seqs.FilterMembership(LargeEnoughFn(minArea), boxes, b);
    }
  }
}
