/** The detection table (src/Storage/DetectionStorage.py) as a sequence of
    rows in insertion order; the SQL engine and sessions are not modelled. */
module DetectionStorage {
  import opened Wrappers
  import opened Analysis
  import opened Evidence
  import Text
  import Seqs

  datatype Detection = Detection(
    imageFullpath: string,
    cutImage: string,
    sourceClass: Option<string>,
    sourceGetter: Option<string>,
    detectionClass: string,
    classNumeric: int,
    confidence: real,
    xMin: int,
    yMin: int,
    xMax: int,
    yMax: int)

  /** A storage object: the `source_class` / `source_getter` it was built
      with, and the rows of the table. */
  datatype Store = Store(sourceClass: Option<string>, sourceGetter: Option<string>, rows: seq<Detection>)

  /** `convert_to_voting_dict`: the detection's own box, unchanged, with the
      single voting ("Detection", {str(class): confidence}). `orig` is the
      image `get_image_by_fullpath(image_fullpath)` returns. */
  function ConvertToVotingDict(d: Detection, orig: OrigImage): (e: Evidence)
    ensures e.xMin == d.xMin && e.xMax == d.xMax && e.yMin == d.yMin && e.yMax == d.yMax
    ensures e.origName == orig.name && e.origFullpath == orig.fullpath
    ensures e.source == DetectionKind
    ensures e.votings.VotePair? && e.votings.vote.source == DetectionKind
    ensures e.votings.vote.probs.Keys == {Text.IntToString(d.classNumeric)}
    ensures e.votings.vote.probs[Text.IntToString(d.classNumeric)] == d.confidence
  {
    Evidence(orig.name, orig.fullpath, d.xMin, d.xMax, d.yMin, d.yMax,
      VotePair(Vote(DetectionKind, map[Text.IntToString(d.classNumeric) := d.confidence])),
      DetectionKind)
  }

  /** The class key of a converted detection reads back as its class id. */
  lemma ConvertedClassRoundTrip(d: Detection, orig: OrigImage)
    ensures forall k :: k in ConvertToVotingDict(d, orig).votings.vote.probs ==>
      Text.ParseInt(k) == Ok(d.classNumeric)
  {
    Text.IntRoundTrip(d.classNumeric);
  }

  /** `store`: always appends one row, tagged with the store's source. */
  function StoreDetection(s: Store, fullpath: string, cutImage: string, detectionClass: string,
                          classNumeric: int, confidence: real, xMin: int, yMin: int, xMax: int, yMax: int)
    : (r: Store)
    ensures r.sourceClass == s.sourceClass && r.sourceGetter == s.sourceGetter
    ensures |r.rows| == |s.rows| + 1 && r.rows[..|s.rows|] == s.rows
    ensures r.rows[|s.rows|].sourceClass == s.sourceClass && r.rows[|s.rows|].sourceGetter == s.sourceGetter
    ensures r.rows[|s.rows|].cutImage == cutImage && r.rows[|s.rows|].classNumeric == classNumeric
    ensures r.rows[|s.rows|] == Detection(fullpath, cutImage, s.sourceClass, s.sourceGetter, detectionClass,
      classNumeric, confidence, xMin, yMin, xMax, yMax)
  {
    var d := Detection(fullpath, cutImage, s.sourceClass, s.sourceGetter, detectionClass,
      classNumeric, confidence, xMin, yMin, xMax, yMax);
    s.(rows := s.rows + [d])
  }

  /** `get_images`: every row for `None`, else the rows cut from `img`, in
      table order. */
  function GetImages(s: Store, img: Option<string>): (r: seq<Detection>)
    ensures img.None? ==> r == s.rows
    ensures img.Some? ==> forall d :: d in r <==> d in s.rows && d.cutImage == img.value
  {
    match img
    case None => s.rows
    case Some(cut) =>
      var keep := (d: Detection) => d.cutImage == cut;
      assert forall d :: d in Seqs.Filter(keep, s.rows) <==> d in s.rows && keep(d) by {
        forall d ensures d in Seqs.Filter(keep, s.rows) <==> d in s.rows && keep(d) {
          Seqs.FilterMembership(keep, s.rows, d);
        }
      }
      Seqs.Filter(keep, s.rows)
  }

  /** Storing is never deduplicated: the new row shows up at the end of its
      image's listing even when an identical row is already there. */
  lemma StoreThenGetImages(s: Store, fullpath: string, cutImage: string, detectionClass: string,
                           classNumeric: int, confidence: real, xMin: int, yMin: int, xMax: int, yMax: int)
    ensures var s' := StoreDetection(s, fullpath, cutImage, detectionClass, classNumeric, confidence, xMin, yMin, xMax, yMax);
      GetImages(s', Some(cutImage)) == GetImages(s, Some(cutImage)) + [s'.rows[|s.rows|]]
  {
    var s' := StoreDetection(s, fullpath, cutImage, detectionClass, classNumeric, confidence, xMin, yMin, xMax, yMax);
    var keep := (d: Detection) => d.cutImage == cutImage;
    Seqs.FilterConcat(keep, s.rows, [s'.rows[|s.rows|]]);
    assert s'.rows == s.rows + [s'.rows[|s.rows|]];
  }

  /** The distinct class names stored under a numeric class id. */
  function NamesFor(rows: seq<Detection>, classId: int): set<string> {
    set d | d in rows && d.classNumeric == classId :: d.detectionClass
  }

  lemma NamesForCons(rows: seq<Detection>, classId: int)
    requires |rows| > 0
    ensures NamesFor(rows, classId) ==
      (if rows[0].classNumeric == classId then {rows[0].detectionClass} else {}) + NamesFor(rows[1..], classId)
  {
    assert rows == [rows[0]] + rows[1..];
    assert forall d :: d in rows <==> d == rows[0] || d in rows[1..];
  }

  function ClassNameIn(rows: seq<Detection>, classId: int): (r: Result<Option<string>>)
    ensures r.Ok? && r.value.None? <==> NamesFor(rows, classId) == {}
    ensures r.Ok? && r.value.Some? ==> NamesFor(rows, classId) == {r.value.value}
    ensures r.Err? <==> exists a, b :: a in NamesFor(rows, classId) && b in NamesFor(rows, classId) && a != b
    ensures r.Err? ==> r.error == MultipleResultsFound
  {
    if |rows| == 0 then Ok(None)
    else
      NamesForCons(rows, classId);
      var rest := ClassNameIn(rows[1..], classId);
      if rows[0].classNumeric != classId || rest.Err? then rest
      else if rest.value.None? then Ok(Some(rows[0].detectionClass))
      else if rest.value.value == rows[0].detectionClass then rest
      else
        assert rest.value.value in NamesFor(rows, classId) && rows[0].detectionClass in NamesFor(rows, classId);
        Err(MultipleResultsFound)
  }

  /** `get_class_name_by_id`: `scalar_one_or_none` over the distinct names
      of the rows with that class id — None for no row, the name when all
      rows agree, and MultipleResultsFound otherwise. */
  function GetClassNameById(s: Store, classId: int): (r: Result<Option<string>>)
    ensures r.Ok? && r.value.None? <==> forall d :: d in s.rows ==> d.classNumeric != classId
    ensures r.Ok? && r.value.Some? ==> forall d :: d in s.rows && d.classNumeric == classId ==> d.detectionClass == r.value.value
    ensures r.Ok? && r.value.Some? ==> exists d :: d in s.rows && d.classNumeric == classId && d.detectionClass == r.value.value
    ensures r.Err? <==> exists d, d' ::
      d in s.rows && d' in s.rows && d.classNumeric == classId && d'.classNumeric == classId
      && d.detectionClass != d'.detectionClass
    ensures r.Err? ==> r.error == MultipleResultsFound
  {
    var r := ClassNameIn(s.rows, classId);
    assert forall d :: d in s.rows && d.classNumeric == classId ==> d.detectionClass in NamesFor(s.rows, classId);
    r
  }

  /** Storing a detection is what `get_class_name_by_id` later reads: when
      no earlier row gives its class id another name, the id names the
      stored class. */
  lemma StoreThenClassName(s: Store, fullpath: string, cutImage: string, detectionClass: string,
                           classNumeric: int, confidence: real, xMin: int, yMin: int, xMax: int, yMax: int)
    requires forall d :: d in s.rows && d.classNumeric == classNumeric ==> d.detectionClass == detectionClass
    ensures GetClassNameById(StoreDetection(s, fullpath, cutImage, detectionClass, classNumeric, confidence,
      xMin, yMin, xMax, yMax), classNumeric) == Ok(Some(detectionClass))
  {
    var s' := StoreDetection(s, fullpath, cutImage, detectionClass, classNumeric, confidence, xMin, yMin, xMax, yMax);
    var added := s'.rows[|s.rows|];
    assert added in s'.rows;
    assert forall d :: d in s'.rows ==> d in s.rows || d == added by {
      assert s'.rows == s.rows + [added];
    }
  }
}
