/** The box helpers of tools/createSquaredLabels.py, which cuts square
    patches around YOLO labels. Boxes are lists [xmin, ymin, xmax, ymax]
    of pixel coordinates. */
module SquaredLabels {
  import Ordering

  datatype Box4 = Box4(xMin: int, yMin: int, xMax: int, yMax: int)

  /** The integer point (px, py) lies in `b`, edges included. */
  predicate InBox(b: Box4, px: int, py: int) {
    b.xMin <= px <= b.xMax && b.yMin <= py <= b.yMax
  }

  /** `isCompletelyInsideBox`: both chained comparisons, which also demand
      that `inner` is not inverted. */
  predicate IsCompletelyInsideBox(inner: Box4, outer: Box4) {
    outer.xMin <= inner.xMin <= inner.xMax <= outer.xMax &&
    outer.yMin <= inner.yMin <= inner.yMax <= outer.yMax
  }

  /** Inside means: `inner` is a non-empty box and every point of it is a
      point of `outer`. */
  lemma InsideIffPoints(inner: Box4, outer: Box4)
    ensures IsCompletelyInsideBox(inner, outer) <==>
      (inner.xMin <= inner.xMax && inner.yMin <= inner.yMax &&
       forall px, py :: InBox(inner, px, py) ==> InBox(outer, px, py))
  {
    if inner.xMin <= inner.xMax && inner.yMin <= inner.yMax &&
       forall px, py :: InBox(inner, px, py) ==> InBox(outer, px, py)
    {
      assert InBox(outer, inner.xMin, inner.yMin);
      assert InBox(outer, inner.xMax, inner.yMax);
    }
  }

  /** `intersect(box1, box2)`: some x edge of `box2` lies in the x span of
      `box1`, and some y edge of `box2` lies in its y span. Only `box2`'s
      edges are tested, so the test is not symmetric: a `box2` strictly
      enclosing `box1` (or crossing it like a plus sign) does not count.
      For a well-formed `box2` a positive answer names a shared corner
      coordinate pair. */
  function Intersect(box1: Box4, box2: Box4): (r: bool)
    ensures IsCompletelyInsideBox(box2, box1) ==> r
    ensures box2.xMin < box1.xMin && box1.xMax < box2.xMax ==> !r
    ensures box2.yMin < box1.yMin && box1.yMax < box2.yMax ==> !r
    ensures r && box2.xMin <= box2.xMax && box2.yMin <= box2.yMax ==>
      exists px, py :: (InBox(box1, px, py) && InBox(box2, px, py) &&
        (px == box2.xMin || px == box2.xMax) && (py == box2.yMin || py == box2.yMax))
  {
    var xEdge := if box1.xMin <= box2.xMin <= box1.xMax then box2.xMin else box2.xMax;
    var yEdge := if box1.yMin <= box2.yMin <= box1.yMax then box2.yMin else box2.yMax;
    var r := (box1.xMin <= box2.xMin <= box1.xMax || box1.xMin <= box2.xMax <= box1.xMax) &&
      (box1.yMin <= box2.yMin <= box1.yMax || box1.yMin <= box2.yMax <= box1.yMax);
    assert r && box2.xMin <= box2.xMax && box2.yMin <= box2.yMax ==>
      InBox(box1, xEdge, yEdge) && InBox(box2, xEdge, yEdge);
    r
  }

  /** The asymmetry, on a concrete pair: the enclosed box intersects the
      enclosing one but not the other way round. */
  lemma IntersectNotSymmetric()
    ensures Intersect(Box4(0, 0, 10, 10), Box4(2, 2, 4, 4))
    ensures !Intersect(Box4(2, 2, 4, 4), Box4(0, 0, 10, 10))
  {
  }

  function Abs(v: int): nat {
    if v < 0 then -v else v
  }

  /** `fitIntoImage`: shifts a box that sticks out of the image back in,
      first past the left/top edge, then past the right/bottom edge. It
      only translates: the size is kept, the far edges end up inside the
      image, the near edges too when the box is not larger than the image,
      and a box already inside is returned unchanged. */
  function FitIntoImage(b: Box4, width: int, height: int): (r: Box4)
    ensures r.xMax - r.xMin == b.xMax - b.xMin && r.yMax - r.yMin == b.yMax - b.yMin
    ensures r.xMax <= width && r.yMax <= height
    ensures b.xMax - b.xMin <= width ==> 0 <= r.xMin
    ensures b.yMax - b.yMin <= height ==> 0 <= r.yMin
    ensures 0 <= b.xMin && b.xMax <= width && 0 <= b.yMin && b.yMax <= height ==> r == b
  {
    var b1 := if b.xMin < 0 then b.(xMax := b.xMax + Abs(b.xMin), xMin := 0) else b;
    var b2 := if b1.yMin < 0 then b1.(yMax := b1.yMax + Abs(b1.yMin), yMin := 0) else b1;
    var b3 := if b2.xMax > width then b2.(xMin := b2.xMin - Abs(b2.xMax - width), xMax := width) else b2;
    if b3.yMax > height then b3.(yMin := b3.yMin - Abs(b3.yMax - height), yMax := height) else b3
  }

  /** `min(max(v, 0), hi)`: the point of [0, hi] nearest to `v`. */
  function Clamp(v: int, hi: int): (r: int)
    ensures hi >= 0 ==> 0 <= r <= hi
    ensures hi >= 0 ==> (0 <= v <= hi ==> r == v) && (v < 0 ==> r == 0) && (v > hi ==> r == hi)
  {
    var m := if v >= 0 then v else 0;
    if m <= hi then m else hi
  }

  /** `cutToBox`: every coordinate clamped into the patch [0, width] x
      [0, height]. */
  function CutToBox(b: Box4, width: int, height: int): (r: Box4)
    ensures width >= 0 && height >= 0 ==>
      0 <= r.xMin <= width && 0 <= r.xMax <= width && 0 <= r.yMin <= height && 0 <= r.yMax <= height
    ensures width >= 0 && height >= 0 && IsCompletelyInsideBox(b, Box4(0, 0, width, height)) ==> r == b
  {
    Box4(Clamp(b.xMin, width), Clamp(b.yMin, height), Clamp(b.xMax, width), Clamp(b.yMax, height))
  }

  /** Cutting twice is cutting once. */
  lemma CutToBoxIdempotent(b: Box4, width: int, height: int)
    requires width >= 0 && height >= 0
    ensures CutToBox(CutToBox(b, width, height), width, height) == CutToBox(b, width, height)
  {
    var c := CutToBox(b, width, height);
    assert Clamp(c.xMin, width) == c.xMin && Clamp(c.xMax, width) == c.xMax;
    assert Clamp(c.yMin, height) == c.yMin && Clamp(c.yMax, height) == c.yMax;
  }

  /** Python's ordering of lists of integers: lexicographic. */
  predicate BoxLess(a: Box4, b: Box4) {
    a.xMin < b.xMin ||
    (a.xMin == b.xMin && (a.yMin < b.yMin ||
    (a.yMin == b.yMin && (a.xMax < b.xMax ||
    (a.xMax == b.xMax && a.yMax < b.yMax)))))
  }

  predicate BoxLeq(a: Box4, b: Box4) {
    a == b || BoxLess(a, b)
  }

  lemma BoxLessIsStrictTotal()
    ensures Ordering.StrictTotalOrder(BoxLess)
  {
  }

  predicate Sorted(s: seq<Box4>) {
    forall i, j :: 0 <= i < j < |s| ==> BoxLeq(s[i], s[j])
  }

  /** Inserts `x` in front of the first element not smaller than it. */
  function Insert(x: Box4, s: seq<Box4>): (r: seq<Box4>)
    requires Sorted(s)
    ensures Sorted(r)
    ensures |r| == |s| + 1
    ensures forall i :: 0 <= i < |r| ==> r[i] == x || r[i] in s
    ensures multiset(r) == multiset(s) + multiset{x}
  {
    if |s| == 0 || BoxLeq(x, s[0]) then [x] + s
    else
      var rest := Insert(x, s[1..]);
      assert s == [s[0]] + s[1..];
      assert forall j :: 0 <= j < |rest| ==> BoxLeq(s[0], rest[j]) by {
        forall j | 0 <= j < |rest| ensures BoxLeq(s[0], rest[j]) {
          assert rest[j] == x || rest[j] in s[1..];
        }
      }
      [s[0]] + rest
  }

  /** `outer_boxes.sort()`: an ascending permutation. */
  function SortBoxes(s: seq<Box4>): (r: seq<Box4>)
    ensures Sorted(r)
    ensures multiset(r) == multiset(s)
  {
    if |s| == 0 then []
    else
      assert s == [s[0]] + s[1..];
      Insert(s[0], SortBoxes(s[1..]))
  }

  /** `[k for k, _ in itertools.groupby(s)]`: one element per run of equal
      neighbours. */
  function GroupBy(s: seq<Box4>): (r: seq<Box4>)
    ensures Ordering.Elems(r) == Ordering.Elems(s)
    ensures |s| > 0 ==> |r| > 0 && r[0] == s[0]
    ensures Sorted(s) ==> Ordering.StrictlySorted(BoxLess, r)
  {
    if |s| <= 1 then s
    else
      var rest := GroupBy(s[1..]);
      assert Ordering.Elems(s) == {s[0]} + Ordering.Elems(s[1..]) by {
        assert s == [s[0]] + s[1..];
      }
      if s[0] == s[1] then rest
      else
        assert Sorted(s) ==> forall j :: 0 <= j < |rest| ==> BoxLess(s[0], rest[j]) by {
          if Sorted(s) {
            forall j | 0 <= j < |rest| ensures BoxLess(s[0], rest[j]) {
              assert rest[j] in Ordering.Elems(rest);
              var k :| 0 <= k < |s[1..]| && s[1..][k] == rest[j];
              assert BoxLeq(s[0], s[k + 1]);
            }
          }
        }
        [s[0]] + rest
  }

  /** Lines 162-164: the outer boxes sorted with duplicates removed, that
      is, the distinct boxes in ascending order. */
  function OuterBoxes(boxes: seq<Box4>): (r: seq<Box4>)
    ensures Ordering.StrictlySorted(BoxLess, r)
    ensures Ordering.Elems(r) == Ordering.Elems(boxes)
  {
    var sorted := SortBoxes(boxes);
    assert Ordering.Elems(sorted) == Ordering.Elems(boxes) by {
      assert forall x :: x in sorted <==> x in multiset(sorted);
      assert forall x :: x in boxes <==> x in multiset(boxes);
    }
    GroupBy(sorted)
  }

  /** Sorting and grouping gives the only ascending duplicate-free list of
      the boxes, so it agrees with any other way of listing them. */
  lemma OuterBoxesUnique(boxes: seq<Box4>, other: seq<Box4>)
    requires Ordering.StrictlySorted(BoxLess, other)
    requires Ordering.Elems(other) == Ordering.Elems(boxes)
    ensures other == OuterBoxes(boxes)
  {
    BoxLessIsStrictTotal();
    Ordering.StrictlySortedUnique(BoxLess, other, OuterBoxes(boxes));
  }
}
