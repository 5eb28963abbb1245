/** The final decision table (src/Storage/FinalDetectionStorage.py): one
    row per kept box, written with "insert unless identical", read back by
    image and probability threshold. */
module FinalStorage {
  import opened Wrappers
  import opened Numeric
  import Rows
  import Ordering
  import Text
  import Seqs
  import Analysis

  /** One `WeightedDecision` row. `classStr` is None when the detection
      table knows no name for the class id. */
  datatype Decision = Decision(
    imageFullpath: string,
    imageName: string,
    classNumeric: int,
    classStr: Option<string>,
    probability: real,
    xMin: int,
    xMax: int,
    yMin: int,
    yMax: int)

  /** `get_box_center_wh`: width and height are the integer spans, the
      centre is `round(min + span / 2)` with Python's half-to-even rounding. */
  function GetBoxCenterWh(d: Decision): (r: (int, int, int, int))
    ensures r.2 == d.xMax - d.xMin && r.3 == d.yMax - d.yMin
    ensures -0.5 <= r.0 as real - (d.xMin as real + (d.xMax - d.xMin) as real / 2.0) <= 0.5
    ensures -0.5 <= r.1 as real - (d.yMin as real + (d.yMax - d.yMin) as real / 2.0) <= 0.5
  {
    var w := RoundHalfEven((d.xMax - d.xMin) as real);
    var h := RoundHalfEven((d.yMax - d.yMin) as real);
    (RoundHalfEven(d.xMin as real + w as real / 2.0), RoundHalfEven(d.yMin as real + h as real / 2.0), w, h)
  }

  /** `get_box_xmin_xmax`: the stored corners, in (x_min, x_max, y_min, y_max) order. */
  function GetBoxXminXmax(d: Decision): (r: (int, int, int, int))
    ensures r == (d.xMin, d.xMax, d.yMin, d.yMax)
  {
    (d.xMin, d.xMax, d.yMin, d.yMax)
  }

  lemma EvenHalf(m: int, w: int)
    requires w % 2 == 0
    ensures RoundHalfEven(m as real + w as real / 2.0) == m + w / 2
    ensures (m + w / 2) as real - w as real / 2.0 == m as real
    ensures (m + w / 2) as real + w as real / 2.0 == (m + w) as real
  {
    assert w as real / 2.0 == (w / 2) as real;
    assert m as real + w as real / 2.0 == (m + w / 2) as real;
  }

  /** For even width and height, converting to centre form and back with
      `to_xmin_xmax` recovers the stored corners exactly. */
  lemma CenterRoundTrip(d: Decision)
    requires (d.xMax - d.xMin) % 2 == 0 && (d.yMax - d.yMin) % 2 == 0
    ensures var c := GetBoxCenterWh(d);
      Analysis.ToXminXmax(Analysis.Box(c.0 as real, c.1 as real, c.2 as real, c.3 as real)) == GetBoxXminXmax(d)
  {
    var c := GetBoxCenterWh(d);
    EvenHalf(d.xMin, d.xMax - d.xMin);
    EvenHalf(d.yMin, d.yMax - d.yMin);
    TruncOfInt(d.xMin);
    TruncOfInt(d.xMax);
    TruncOfInt(d.yMin);
    TruncOfInt(d.yMax);
  }

  /** `store`: insert unless a row equal on all nine columns exists. */
  function Store(rows: seq<Decision>, d: Decision): (r: seq<Decision>)
    ensures d in r
    ensures forall x :: x in r <==> x in rows || x == d
    ensures d in rows ==> r == rows
    ensures Rows.NoDuplicates(rows) ==> Rows.NoDuplicates(r)
  {
    Rows.InsertIfAbsent(rows, d)
  }

  /** `get_all_images`: the distinct image paths, ascending. */
  function GetAllImages(rows: seq<Decision>): (r: seq<string>)
    ensures Ordering.StrictlySorted(Text.StrLess, r)
    ensures forall p :: p in r <==> exists d :: d in rows && d.imageFullpath == p
  {
    var paths := Rows.Column(rows, (d: Decision) => d.imageFullpath);
    var r := Text.SortedDistinct(paths);
    assert forall p :: p in r <==> p in Ordering.Elems(paths);
    r
  }

  /** `get_detections_for_image`: the image's rows whose probability is at
      least the threshold, in table order. */
  function GetDetectionsForImage(rows: seq<Decision>, image: string, threshold: real): (r: seq<Decision>)
    ensures forall d :: d in r <==> d in rows && d.imageFullpath == image && d.probability >= threshold
  {
    Rows.Select(rows, (d: Decision) => d.imageFullpath == image && d.probability >= threshold)
  }

  /** With non-negative probabilities, the default threshold 0 returns every
      row of the image. */
  lemma DefaultThresholdKeepsAll(rows: seq<Decision>, image: string)
    requires forall i :: 0 <= i < |rows| ==> rows[i].probability >= 0.0
    ensures GetDetectionsForImage(rows, image, 0.0) == Rows.Select(rows, (d: Decision) => d.imageFullpath == image)
  {
    Seqs.FilterCongruent((d: Decision) => d.imageFullpath == image && d.probability >= 0.0, (d: Decision) => d.imageFullpath == image, rows);
  }
}
