/** The evidence collection of src/Backmapping/SimpleBackmapping.py: every
    label is traced back to the segment or detection it was made for, its
    box is translated into the pixels of the original image, and one
    evidence entry is produced for it and for each of its duplicates.

    The database getters (`getter_factory(...)`, `find_other_sources`,
    `BaseStorage.get_image_by_*` and the duplicate getter) are not visible
    here; they are the functions of an `Env`. */
module SimpleBackmapping {
  import opened Wrappers
  import opened Analysis
  import opened Evidence
  import Text
  import Seqs
  import DetectionStorage
  import BackmappingStorage
  import Rows

  type Detection = DetectionStorage.Detection

  /** A segment cut out of an original image, in that image's pixels. */
  datatype Segment = Segment(imageFullpath: string, baseImage: int, xMin: int, xMax: int, yMin: int, yMax: int)

  /** A record a getter returns: a segment, a detection, or a record of
      some other class (named by its class name). */
  datatype SourceRec =
    | SegmentSrc(seg: Segment)
    | DetectionSrc(det: Detection)
    | OtherSrc(kind: string)

  /** A label: the votes (`json.loads(image.votings)`) given to the image
      `imageFullpath`, which was made from `sourceFullpath` by the step
      named by `sourceClass` / `sourceGetter`. */
  datatype Label = Label(
    imageFullpath: string,
    sourceFullpath: string,
    sourceClass: string,
    sourceGetter: string,
    votes: map<string, real>)

  /** An input record: the inputs are detections or labels. */
  datatype Input =
    | DetectionIn(det: Detection)
    | LabelIn(lbl: Label)

  /** The lookups the step performs.
      - `records(dataclass, getter, img)`: the label's source records for an image path;
      - `segments(dataclass, getter, img)`: a detection's source segments;
      - `fallback(dup)`: `find_other_sources` for a duplicate with no record;
      - `imageById`, `imageByPath`: the original images;
      - `duplicates`: the configured duplicate getter, if any. */
  datatype Env = Env(
    records: (string, string, string) -> seq<SourceRec>,
    segments: (Option<string>, Option<string>, string) -> seq<Segment>,
    fallback: string -> Option<seq<SourceRec>>,
    imageById: int -> OrigImage,
    imageByPath: string -> OrigImage,
    duplicates: Option<string -> Option<seq<string>>>)

  const NotOneMsg: string := "Number of images is not 1. Aborting..."
  const UnresolvedMsg: string := "Cannot resoulve duplicate "
  const MissingMsg: string := "MISSING "

  /** Lines 55-62: the duplicates of a label's source image; none when no
      duplicate getter is configured or it returns None. */
  function DuplicatesOf(env: Env, lbl: Label): (r: seq<string>)
    ensures env.duplicates.None? ==> r == []
    ensures env.duplicates.Some? && env.duplicates.value(lbl.sourceFullpath).Some? ==>
      r == env.duplicates.value(lbl.sourceFullpath).value
    ensures env.duplicates.Some? && env.duplicates.value(lbl.sourceFullpath).None? ==> r == []
  {
    match env.duplicates
    case None => []
    case Some(getter) =>
      match getter(lbl.sourceFullpath)
      case None => []
      case Some(dups) => dups
  }

  /** Lines 237-240 (and 105-108, 188-191, 265-268): a detection's local box
      moved by its segment's top-left corner, as (x_min, x_max, y_min, y_max). */
  function Compose(seg: Segment, d: Detection): (r: (int, int, int, int))
    ensures r.1 - r.0 == d.xMax - d.xMin && r.3 - r.2 == d.yMax - d.yMin
    ensures r.0 - d.xMin == r.1 - d.xMax == seg.xMin
    ensures r.2 - d.yMin == r.3 - d.yMax == seg.yMin
  {
    (seg.xMin + d.xMin, seg.xMin + d.xMax, seg.yMin + d.yMin, seg.yMin + d.yMax)
  }

  /** A segment at (100,50)-(400,300) and a detection inside it at local
      (10,10)-(60,60) give the absolute box (110,60)-(160,110). */
  lemma ComposeExample(d: Detection)
    requires (d.xMin, d.yMin, d.xMax, d.yMax) == (10, 10, 60, 60)
    ensures Compose(Segment("s", 0, 100, 400, 50, 300), d) == (110, 160, 60, 110)
  {
  }

  /** The votes of a label, as the "Segment" entry. */
  function LabelVote(lbl: Label): Vote {
    Vote(SegmentKind, lbl.votes)
  }

  /** The detection's own vote, `{str(class): confidence}`. */
  function DetectionVote(d: Detection): (v: Vote)
    ensures v.source == DetectionKind && v.probs.Keys == {Text.IntToString(d.classNumeric)}
    ensures v.probs[Text.IntToString(d.classNumeric)] == d.confidence
  {
    Vote(DetectionKind, map[Text.IntToString(d.classNumeric) := d.confidence])
  }

  /** An entry for a detection resolved through `seg`, tagged "Detection". */
  function ComposedEntry(env: Env, seg: Segment, d: Detection, votings: Votings): (e: Evidence)
    ensures (e.xMin, e.xMax, e.yMin, e.yMax) == Compose(seg, d)
    ensures Width(e) == d.xMax - d.xMin && Height(e) == d.yMax - d.yMin
    ensures e.origName == env.imageById(seg.baseImage).name && e.origFullpath == env.imageById(seg.baseImage).fullpath
    ensures e.votings == votings && e.source == DetectionKind
  {
    var (x0, x1, y0, y1) := Compose(seg, d);
    var orig := env.imageById(seg.baseImage);
    Evidence(orig.name, orig.fullpath, x0, x1, y0, y1, votings, DetectionKind)
  }

  /** An entry for a segment: its own box, tagged "Segment". */
  function SegmentEntry(env: Env, seg: Segment, votings: Votings): (e: Evidence)
    ensures (e.xMin, e.xMax, e.yMin, e.yMax) == (seg.xMin, seg.xMax, seg.yMin, seg.yMax)
    ensures e.origName == env.imageById(seg.baseImage).name && e.origFullpath == env.imageById(seg.baseImage).fullpath
    ensures e.votings == votings && e.source == SegmentKind
  {
    var orig := env.imageById(seg.baseImage);
    Evidence(orig.name, orig.fullpath, seg.xMin, seg.xMax, seg.yMin, seg.yMax, votings, SegmentKind)
  }

  /** Lines 166-176: the record a duplicate of a segment-sourced label
      resolves to — the first the label's getter returns for it, or, when
      that getter returns nothing, the first `find_other_sources` returns. */
  function DupRecord(env: Env, lbl: Label, dup: string): (r: Option<SourceRec>)
    ensures |env.records(lbl.sourceClass, lbl.sourceGetter, dup)| > 0 ==>
      r == Some(env.records(lbl.sourceClass, lbl.sourceGetter, dup)[0])
    ensures |env.records(lbl.sourceClass, lbl.sourceGetter, dup)| == 0 ==>
      (r.None? <==> env.fallback(dup).None? || |env.fallback(dup).value| == 0)
    ensures |env.records(lbl.sourceClass, lbl.sourceGetter, dup)| == 0 && r.Some? ==>
      r == Some(env.fallback(dup).value[0])
  {
    var found := env.records(lbl.sourceClass, lbl.sourceGetter, dup);
    var candidates := if |found| == 0 then env.fallback(dup) else Some(found);
    if candidates.None? || |candidates.value| == 0 then None else Some(candidates.value[0])
  }

  /** Lines 165-223: one duplicate of a segment-sourced label. With no
      record it cannot be resolved. A detection is composed with the first
      of its own source segments (lines 180-206), a segment is taken as it
      is (lines 208-220), both with the label votes only, and a record of
      any other class adds nothing. */
  function SegmentDup(env: Env, lbl: Label, dup: string): (r: Result<Option<Evidence>>)
    ensures r == Err(ValueError(UnresolvedMsg + dup)) <==>
      (var found := env.records(lbl.sourceClass, lbl.sourceGetter, dup);
       |found| == 0 && (env.fallback(dup).None? || |env.fallback(dup).value| == 0))
    ensures r == Err(ValueError(UnresolvedMsg + dup)) <==> DupRecord(env, lbl, dup).None?
    ensures r.Ok? && r.value.Some? ==> r.value.value.votings == VoteDict([LabelVote(lbl)])
    ensures r.Err? ==> r.error.ValueError? || r.error == IndexError
    ensures DupRecord(env, lbl, dup).Some? && DupRecord(env, lbl, dup).value.SegmentSrc? ==>
      r == Ok(Some(SegmentEntry(env, DupRecord(env, lbl, dup).value.seg, VoteDict([LabelVote(lbl)]))))
    ensures DupRecord(env, lbl, dup).Some? && DupRecord(env, lbl, dup).value.DetectionSrc? ==>
      (var d := DupRecord(env, lbl, dup).value.det;
       var segs := env.segments(d.sourceClass, d.sourceGetter, d.imageFullpath);
       (r == Err(IndexError) <==> |segs| == 0) &&
       (r.Ok? ==> r == Ok(Some(ComposedEntry(env, segs[0], d, VoteDict([LabelVote(lbl)]))))))
    ensures DupRecord(env, lbl, dup).Some? && DupRecord(env, lbl, dup).value.OtherSrc? ==> r == Ok(None)
  {
    match DupRecord(env, lbl, dup)
    case None => Err(ValueError(UnresolvedMsg + dup))
    case Some(DetectionSrc(d)) =>
      var segs := env.segments(d.sourceClass, d.sourceGetter, d.imageFullpath);
      if |segs| == 0 then Err(IndexError)
      else Ok(Some(ComposedEntry(env, segs[0], d, VoteDict([LabelVote(lbl)]))))
    case Some(SegmentSrc(s)) => Ok(Some(SegmentEntry(env, s, VoteDict([LabelVote(lbl)]))))
    case Some(OtherSrc(_)) => Ok(None)
  }

  /** The duplicates of a segment-sourced label in order, stopping at the
      first that raises; each adds at most one entry. */
  function SegmentDups(env: Env, lbl: Label, dups: seq<string>): (r: Result<seq<Evidence>>)
    ensures r.Ok? ==> |r.value| <= |dups|
    ensures r.Ok? <==> forall i :: 0 <= i < |dups| ==> SegmentDup(env, lbl, dups[i]).Ok?
    ensures r.Ok? ==> forall e :: e in r.value ==> e.votings == VoteDict([LabelVote(lbl)])
  {
    if |dups| == 0 then Ok([])
    else
      var head := SegmentDup(env, lbl, dups[0]);
      var rest := SegmentDups(env, lbl, dups[1..]);
      assert forall i :: 0 < i < |dups| ==> dups[i] == dups[1..][i - 1];
      if head.Err? then Err(head.error)
      else if rest.Err? then Err(rest.error)
      else if head.value.Some? then Ok([head.value.value] + rest.value)
      else Ok(rest.value)
  }

  /** Lines 151-223: a label made for a segment yields the segment's own box
      with the label votes only, then its duplicates. */
  function SegmentPath(env: Env, lbl: Label, seg: Segment): (r: Result<seq<Evidence>>)
    ensures r.Ok? ==> 1 <= |r.value| <= 1 + |DuplicatesOf(env, lbl)|
    ensures r.Ok? ==> r.value[0] == SegmentEntry(env, seg, VoteDict([LabelVote(lbl)]))
    ensures r.Ok? ==> forall e :: e in r.value ==> e.votings == VoteDict([LabelVote(lbl)])
    ensures r.Ok? <==> SegmentDups(env, lbl, DuplicatesOf(env, lbl)).Ok?
    ensures r.Ok? ==> r.value[1..] == SegmentDups(env, lbl, DuplicatesOf(env, lbl)).value
  {
    var main := SegmentEntry(env, seg, VoteDict([LabelVote(lbl)]));
    var rest :- SegmentDups(env, lbl, DuplicatesOf(env, lbl));
    Ok([main] + rest)
  }

  /** The votings of a detection-sourced entry: the label votes and the
      detection's own vote. */
  function DetectionVotings(lbl: Label, d: Detection): Votings {
    VoteDict([LabelVote(lbl), DetectionVote(d)])
  }

  /** Lines 260-285: one duplicate of a detection-sourced label. The first
      record the label's getter returns for the duplicate is composed with
      the first segment the main detection's segment getter returns for it,
      voted by the label and by that record. A missing record or segment
      raises IndexError; a record that is no detection has no
      `image_fullpath` or class attribute. */
  function DetectionDup(env: Env, lbl: Label, d: Detection, dup: string): (r: Result<Evidence>)
    ensures r.Ok? ==> r.value.source == DetectionKind
    ensures r.Ok? ==> exists d2 :: r.value.votings == DetectionVotings(lbl, d2) && Width(r.value) == d2.xMax - d2.xMin
    ensures |env.records(lbl.sourceClass, lbl.sourceGetter, dup)| == 0 ==> r == Err(IndexError)
    ensures r.Err? ==> r.error == IndexError || r.error == AttributeError
    ensures var found := env.records(lbl.sourceClass, lbl.sourceGetter, dup);
      r == Err(IndexError) <==>
        |found| == 0 ||
        (found[0].DetectionSrc? && |env.segments(d.sourceClass, d.sourceGetter, found[0].det.imageFullpath)| == 0)
    ensures var found := env.records(lbl.sourceClass, lbl.sourceGetter, dup);
      r == Err(AttributeError) <==> |found| > 0 && !found[0].DetectionSrc?
    ensures var found := env.records(lbl.sourceClass, lbl.sourceGetter, dup);
      r.Ok? ==> (|found| > 0 && found[0].DetectionSrc? &&
                 r.value == ComposedEntry(env, env.segments(d.sourceClass, d.sourceGetter, found[0].det.imageFullpath)[0],
                                          found[0].det, DetectionVotings(lbl, found[0].det)))
  {
    var found := env.records(lbl.sourceClass, lbl.sourceGetter, dup);
    if |found| == 0 then Err(IndexError)
    else
      match found[0]
      case DetectionSrc(d2) =>
        var segs := env.segments(d.sourceClass, d.sourceGetter, d2.imageFullpath);
        if |segs| == 0 then Err(IndexError)
        else Ok(ComposedEntry(env, segs[0], d2, DetectionVotings(lbl, d2)))
      case _ => Err(AttributeError)
  }

  function DetectionDups(env: Env, lbl: Label, d: Detection, dups: seq<string>): (r: Result<seq<Evidence>>)
    ensures r.Ok? ==> |r.value| == |dups|
    ensures r.Ok? <==> forall i :: 0 <= i < |dups| ==> DetectionDup(env, lbl, d, dups[i]).Ok?
    ensures r.Ok? ==> forall i :: 0 <= i < |dups| ==> r.value[i] == DetectionDup(env, lbl, d, dups[i]).value
  {
    if |dups| == 0 then Ok([])
    else
      var head := DetectionDup(env, lbl, d, dups[0]);
      var rest := DetectionDups(env, lbl, d, dups[1..]);
      assert forall i :: 0 < i < |dups| ==> dups[i] == dups[1..][i - 1];
      if head.Err? then Err(head.error)
      else if rest.Err? then Err(rest.error)
      else Ok([head.value] + rest.value)
  }

  /** Lines 225-285: a label made for a detection yields the detection's
      composed box with the label votes plus the detection's vote, then
      exactly one entry per duplicate. */
  function DetectionPath(env: Env, lbl: Label, d: Detection): (r: Result<seq<Evidence>>)
    ensures |env.segments(d.sourceClass, d.sourceGetter, d.imageFullpath)| == 0 ==> r == Err(IndexError)
    ensures r.Ok? ==> |r.value| == 1 + |DuplicatesOf(env, lbl)|
    ensures r.Ok? ==> r.value[0].votings == DetectionVotings(lbl, d) && r.value[0].source == DetectionKind
    ensures r.Ok? ==>
      (r.value[0].xMin, r.value[0].xMax, r.value[0].yMin, r.value[0].yMax)
      == Compose(env.segments(d.sourceClass, d.sourceGetter, d.imageFullpath)[0], d)
    ensures r.Ok? <==>
      |env.segments(d.sourceClass, d.sourceGetter, d.imageFullpath)| > 0 &&
      forall i :: 0 <= i < |DuplicatesOf(env, lbl)| ==> DetectionDup(env, lbl, d, DuplicatesOf(env, lbl)[i]).Ok?
    ensures r.Ok? ==>
      r.value[0] == ComposedEntry(env, env.segments(d.sourceClass, d.sourceGetter, d.imageFullpath)[0], d, DetectionVotings(lbl, d))
    ensures r.Ok? ==> forall i :: 0 <= i < |DuplicatesOf(env, lbl)| ==>
      r.value[i + 1] == DetectionDup(env, lbl, d, DuplicatesOf(env, lbl)[i]).value
  {
    var segs := env.segments(d.sourceClass, d.sourceGetter, d.imageFullpath);
    if |segs| == 0 then Err(IndexError)
    else
      var main := ComposedEntry(env, segs[0], d, DetectionVotings(lbl, d));
      var rest :- DetectionDups(env, lbl, d, DuplicatesOf(env, lbl));
      Ok([main] + rest)
  }

  /** Fanning out over duplicates is compositional: the entries of two
      runs of duplicates are the entries of each run, in order. */
  lemma {:induction false} SegmentDupsAppend(env: Env, lbl: Label, a: seq<string>, b: seq<string>)
    ensures SegmentDups(env, lbl, a + b).Ok? <==> SegmentDups(env, lbl, a).Ok? && SegmentDups(env, lbl, b).Ok?
    ensures SegmentDups(env, lbl, a + b).Ok? ==>
      SegmentDups(env, lbl, a + b).value == SegmentDups(env, lbl, a).value + SegmentDups(env, lbl, b).value
    decreases |a|
  {
    if |a| > 0 {
      assert (a + b)[0] == a[0];
      assert (a + b)[1..] == a[1..] + b;
      SegmentDupsAppend(env, lbl, a[1..], b);
    } else {
      assert a + b == b;
    }
  }

  lemma {:induction false} DetectionDupsAppend(env: Env, lbl: Label, d: Detection, a: seq<string>, b: seq<string>)
    ensures DetectionDups(env, lbl, d, a + b).Ok? <==> DetectionDups(env, lbl, d, a).Ok? && DetectionDups(env, lbl, d, b).Ok?
    ensures DetectionDups(env, lbl, d, a + b).Ok? ==>
      DetectionDups(env, lbl, d, a + b).value == DetectionDups(env, lbl, d, a).value + DetectionDups(env, lbl, d, b).value
    decreases |a|
  {
    if |a| > 0 {
      assert (a + b)[0] == a[0];
      assert (a + b)[1..] == a[1..] + b;
      DetectionDupsAppend(env, lbl, d, a[1..], b);
    } else {
      assert a + b == b;
    }
  }

  /** A duplicate whose record is the label's own segment reproduces the
      label's main entry. */
  lemma SegmentDupOfSelf(env: Env, lbl: Label, seg: Segment, dup: string)
    requires |env.records(lbl.sourceClass, lbl.sourceGetter, dup)| > 0
    requires env.records(lbl.sourceClass, lbl.sourceGetter, dup)[0] == SegmentSrc(seg)
    requires SegmentPath(env, lbl, seg).Ok?
    ensures SegmentDup(env, lbl, dup) == Ok(Some(SegmentPath(env, lbl, seg).value[0]))
  {
  }

  /** A duplicate whose record is the label's own detection reproduces the
      label's main entry: the same segment, box and votes. */
  lemma DetectionDupOfSelf(env: Env, lbl: Label, d: Detection, dup: string)
    requires |env.records(lbl.sourceClass, lbl.sourceGetter, dup)| > 0
    requires env.records(lbl.sourceClass, lbl.sourceGetter, dup)[0] == DetectionSrc(d)
    requires |env.segments(d.sourceClass, d.sourceGetter, d.imageFullpath)| > 0
    ensures DetectionDup(env, lbl, d, dup).Ok?
    ensures DetectionPath(env, lbl, d).Ok? ==> DetectionDup(env, lbl, d, dup).value == DetectionPath(env, lbl, d).value[0]
  {
  }

  /** Lines 68-74 and 145-289: the entries of one label. Its source must be
      exactly one record, of a known class. */
  function LabelEntries(env: Env, lbl: Label): (r: Result<seq<Evidence>>)
    ensures |env.records(lbl.sourceClass, lbl.sourceGetter, lbl.imageFullpath)| != 1 ==>
      r == Err(ValueError(NotOneMsg))
    ensures (var found := env.records(lbl.sourceClass, lbl.sourceGetter, lbl.imageFullpath);
      |found| == 1 && found[0].OtherSrc? ==> r == Err(ValueError(MissingMsg + found[0].kind)))
    ensures r.Ok? ==> |r.value| >= 1
  {
    var found := env.records(lbl.sourceClass, lbl.sourceGetter, lbl.imageFullpath);
    if |found| != 1 then Err(ValueError(NotOneMsg))
    else
      match found[0]
      case SegmentSrc(s) => SegmentPath(env, lbl, s)
      case DetectionSrc(d) => DetectionPath(env, lbl, d)
      case OtherSrc(kind) => Err(ValueError(MissingMsg + kind))
  }

  /** Lines 68-76 as written, with the label test of line 67 taken as
      meant (see `InputEntriesAsWritten` for that line as written): once the
      source count is one, line 76 passes `isinstance` a single tuple, which
      raises TypeError before any entry is produced, whatever the source
      record is. */
  function LabelEntriesAsWritten(env: Env, lbl: Label): (r: Result<seq<Evidence>>)
    ensures r.Err?
    ensures |env.records(lbl.sourceClass, lbl.sourceGetter, lbl.imageFullpath)| != 1 <==>
      r == Err(ValueError(NotOneMsg))
  {
    var found := env.records(lbl.sourceClass, lbl.sourceGetter, lbl.imageFullpath);
    if |found| != 1 then Err(ValueError(NotOneMsg)) else Err(TypeError)
  }

  /** The intended behaviour for the simplest label: one segment as its
      source and no duplicates gives exactly the segment's entry with the
      label votes. */
  lemma SegmentLabelEntries(env: Env, lbl: Label, s: Segment)
    requires env.records(lbl.sourceClass, lbl.sourceGetter, lbl.imageFullpath) == [SegmentSrc(s)]
    requires env.duplicates.None?
    ensures LabelEntries(env, lbl) == Ok([SegmentEntry(env, s, VoteDict([LabelVote(lbl)]))])
  {
    assert DuplicatesOf(env, lbl) == [];
    assert SegmentDups(env, lbl, []) == Ok([]);
    var e := SegmentEntry(env, s, VoteDict([LabelVote(lbl)]));
    assert SegmentPath(env, lbl, s) == Ok([e] + []);
    assert [e] + [] == [e];
    assert LabelEntries(env, lbl) == SegmentPath(env, lbl, s);
  }

  /** On that same label the code as written raises instead. */
  lemma AsWrittenRaisesOnSegmentLabel(env: Env, lbl: Label, s: Segment)
    requires env.records(lbl.sourceClass, lbl.sourceGetter, lbl.imageFullpath) == [SegmentSrc(s)]
    requires env.duplicates.None?
    ensures LabelEntries(env, lbl).Ok?
    ensures LabelEntriesAsWritten(env, lbl) == Err(TypeError)
  {
    SegmentLabelEntries(env, lbl, s);
  }

  /** Lines 64-65 and 67-289: a detection input is converted directly, a
      label input is traced back. */
  function InputEntries(env: Env, input: Input): (r: Result<seq<Evidence>>)
    ensures input.DetectionIn? ==>
      r == Ok([DetectionStorage.ConvertToVotingDict(input.det, env.imageByPath(input.det.imageFullpath))])
    ensures input.LabelIn? ==> r == LabelEntries(env, input.lbl)
    ensures r.Ok? ==> |r.value| >= 1
  {
    match input
    case DetectionIn(d) => Ok([DetectionStorage.ConvertToVotingDict(d, env.imageByPath(d.imageFullpath))])
    case LabelIn(lbl) => LabelEntries(env, lbl)
  }

  /** Lines 55-67 and 145 as written. A detection row has no
      `source_fullpath` column, so with a duplicate getter configured line 56
      raises AttributeError on a detection input. Without one, the detection
      is appended at line 65 and control falls through to line 145, which
      sits outside the `elif` of line 67 and indexes `src_images`. That name
      is bound only on the label branch (lines 70-93), and every label input
      raises before the loop moves on, so line 145 raises UnboundLocalError
      on the first detection input. A label input raises AttributeError at
      line 67, where `SimpleLabelStorage.get_class` is called. No input gets
      through. */
  function InputEntriesAsWritten(env: Env, input: Input): (r: Result<seq<Evidence>>)
    ensures r.Err?
    ensures input.LabelIn? ==> r == Err(AttributeError)
    ensures input.DetectionIn? ==> (r == Err(AttributeError) <==> env.duplicates.Some?)
    ensures input.DetectionIn? ==> (r == Err(UnboundLocalError) <==> env.duplicates.None?)
  {
    match input
    case DetectionIn(_) =>
      if env.duplicates.Some? then Err(AttributeError) else Err(UnboundLocalError)
    case LabelIn(_) => Err(AttributeError)
  }

  /** A label the intended code maps to one segment entry raises as written;
      a detection the intended code converts raises as written, at line 56
      with a duplicate getter and at line 145 without one. */
  lemma AsWrittenRaisesOnInputs(env: Env, lbl: Label, s: Segment, d: Detection)
    requires env.records(lbl.sourceClass, lbl.sourceGetter, lbl.imageFullpath) == [SegmentSrc(s)]
    requires env.duplicates.None?
    ensures InputEntries(env, LabelIn(lbl)) == Ok([SegmentEntry(env, s, VoteDict([LabelVote(lbl)]))])
    ensures InputEntriesAsWritten(env, LabelIn(lbl)) == Err(AttributeError)
    ensures InputEntries(env, DetectionIn(d)).Ok? && InputEntriesAsWritten(env, DetectionIn(d)) == Err(UnboundLocalError)
    ensures var env' := env.(duplicates := Some((p: string) => None));
      InputEntries(env', DetectionIn(d)).Ok? && InputEntriesAsWritten(env', DetectionIn(d)) == Err(AttributeError)
  {
    SegmentLabelEntries(env, lbl, s);
  }

  /** Every input's entries can be collected. */
  predicate AllOk(env: Env, inputs: seq<Input>) {
    forall i :: 0 <= i < |inputs| ==> InputEntries(env, inputs[i]).Ok?
  }

  lemma AllOkSnoc(env: Env, inputs: seq<Input>)
    requires |inputs| > 0
    ensures AllOk(env, inputs) <==>
      AllOk(env, inputs[..|inputs| - 1]) && InputEntries(env, inputs[|inputs| - 1]).Ok?
  {
    var ok := (x: Input) => InputEntries(env, x).Ok?;
    Seqs.AllSnoc(ok, inputs[..|inputs| - 1], inputs);
  }

  /** The entries of every input, one list per input, when all succeed. */
  function Parts(env: Env, inputs: seq<Input>): (r: seq<seq<Evidence>>)
    requires AllOk(env, inputs)
    ensures |r| == |inputs|
    ensures forall i :: 0 <= i < |inputs| ==> r[i] == InputEntries(env, inputs[i]).value
  {
    seq(|inputs|, i requires 0 <= i < |inputs| => InputEntries(env, inputs[i]).value)
  }

  lemma PartsSnoc(env: Env, inputs: seq<Input>)
    requires |inputs| > 0
    requires AllOk(env, inputs)
    ensures AllOk(env, inputs[..|inputs| - 1])
    ensures Seqs.Flatten(Parts(env, inputs)) ==
      Seqs.Flatten(Parts(env, inputs[..|inputs| - 1])) + InputEntries(env, inputs[|inputs| - 1]).value
  {
    var init := inputs[..|inputs| - 1];
    AllOkSnoc(env, inputs);
    var ps := Parts(env, inputs);
    var qs := Parts(env, init);
    forall i | 0 <= i < |qs| ensures ps[..|ps| - 1][i] == qs[i] {
      assert init[i] == inputs[i];
    }
    assert ps[..|ps| - 1] == qs;
  }

  /** The collection loop of lines 46-289, stopping at the first error. */
  function Collect(env: Env, inputs: seq<Input>): (r: Result<seq<Evidence>>)
    ensures r.Ok? <==> AllOk(env, inputs)
    ensures r.Ok? ==> |r.value| >= |inputs|
    ensures r.Ok? ==> r.value == Seqs.Flatten(Parts(env, inputs))
  {
    if |inputs| == 0 then Ok([])
    else
      var rest := Collect(env, inputs[..|inputs| - 1]);
      var last := InputEntries(env, inputs[|inputs| - 1]);
      AllOkSnoc(env, inputs);
      if rest.Err? then rest
      else if last.Err? then Err(last.error)
      else
        PartsSnoc(env, inputs);
        Ok(rest.value + last.value)
  }

  /** A value of an evidence dict. */
  datatype Field = StrField(s: string) | IntField(i: int) | VotingsField(v: Votings)

  /** `tuple(d.items())` of an evidence dict. */
  function Items(e: Evidence): (r: seq<(string, Field)>)
    ensures |r| == 8
  {
    [("orig_image_name", StrField(e.origName)),
     ("orig_image_fullpath", StrField(e.origFullpath)),
     ("x_min", IntField(e.xMin)),
     ("x_max", IntField(e.xMax)),
     ("y_min", IntField(e.yMin)),
     ("y_max", IntField(e.yMax)),
     ("votings", VotingsField(e.votings)),
     ("source", StrField(e.source))]
  }

  /** The value `dict(items)` holds for `key`: that of the last pair with it. */
  function Lookup(items: seq<(string, Field)>, key: string): (r: Option<Field>)
    ensures r.Some? <==> exists i :: 0 <= i < |items| && items[i].0 == key
    ensures r.Some? ==> exists i :: 0 <= i < |items| && items[i] == (key, r.value)
  {
    if |items| == 0 then None
    else if items[|items| - 1].0 == key then Some(items[|items| - 1].1)
    else
      var r := Lookup(items[..|items| - 1], key);
      assert forall i :: 0 <= i < |items| - 1 ==> items[..|items| - 1][i] == items[i];
      r
  }

  /** `dict(items)` read back as an evidence entry, when every field is
      present with the right kind of value. */
  function FromItems(items: seq<(string, Field)>): Option<Evidence> {
    var name := Lookup(items, "orig_image_name");
    var path := Lookup(items, "orig_image_fullpath");
    var x0 := Lookup(items, "x_min");
    var x1 := Lookup(items, "x_max");
    var y0 := Lookup(items, "y_min");
    var y1 := Lookup(items, "y_max");
    var votings := Lookup(items, "votings");
    var source := Lookup(items, "source");
    if name.Some? && name.value.StrField? && path.Some? && path.value.StrField?
      && x0.Some? && x0.value.IntField? && x1.Some? && x1.value.IntField?
      && y0.Some? && y0.value.IntField? && y1.Some? && y1.value.IntField?
      && votings.Some? && votings.value.VotingsField? && source.Some? && source.value.StrField?
    then Some(Evidence(name.value.s, path.value.s, x0.value.i, x1.value.i, y0.value.i, y1.value.i,
                       votings.value.v, source.value.s))
    else None
  }

  /** A key whose last pair is at `i` looks up that pair's value. */
  lemma {:induction false} LookupLast(items: seq<(string, Field)>, i: nat, key: string)
    requires i < |items| && items[i].0 == key
    requires forall j :: i < j < |items| ==> items[j].0 != key
    ensures Lookup(items, key) == Some(items[i].1)
    decreases |items|
  {
    if i < |items| - 1 {
      LookupLast(items[..|items| - 1], i, key);
    }
  }

  /** The name, path and x-range keys of `Items(e)` read back their values. */
  lemma NameAndXLookups(e: Evidence)
    ensures Lookup(Items(e), "orig_image_name") == Some(StrField(e.origName))
    ensures Lookup(Items(e), "orig_image_fullpath") == Some(StrField(e.origFullpath))
    ensures Lookup(Items(e), "x_min") == Some(IntField(e.xMin))
    ensures Lookup(Items(e), "x_max") == Some(IntField(e.xMax))
  {
    var items := Items(e);
    LookupLast(items, 0, "orig_image_name");
    LookupLast(items, 1, "orig_image_fullpath");
    LookupLast(items, 2, "x_min");
    LookupLast(items, 3, "x_max");
  }

  /** The y-range, votings and source keys of `Items(e)` read back their
      values. */
  lemma YAndRestLookups(e: Evidence)
    ensures Lookup(Items(e), "y_min") == Some(IntField(e.yMin))
    ensures Lookup(Items(e), "y_max") == Some(IntField(e.yMax))
    ensures Lookup(Items(e), "votings") == Some(VotingsField(e.votings))
    ensures Lookup(Items(e), "source") == Some(StrField(e.source))
  {
    var items := Items(e);
    LookupLast(items, 4, "y_min");
    LookupLast(items, 5, "y_max");
    LookupLast(items, 6, "votings");
    LookupLast(items, 7, "source");
  }

  lemma ItemsRoundTrip(e: Evidence)
    ensures FromItems(Items(e)) == Some(e)
  {
    NameAndXLookups(e);
    YAndRestLookups(e);
  }

  /** Line 292, the "remove duplicates" step: every dict is turned into its
      items and back, so the list is left as it was. */
  function DedupeStep(es: seq<Evidence>): (r: seq<Evidence>)
    ensures r == es
  {
    var r := seq(|es|, i requires 0 <= i < |es| => ItemsRoundTrip(es[i]); FromItems(Items(es[i])).value);
    assert forall i :: 0 <= i < |es| ==> r[i] == es[i] by {
      forall i | 0 <= i < |es| ensures r[i] == es[i] {
        ItemsRoundTrip(es[i]);
      }
    }
    r
  }

  /** Lines 46-306: collect the evidence of all inputs, pass it through the
      dedupe step and store every entry in the backmapping table. */
  function Run(env: Env, inputs: seq<Input>, rows: seq<BackmappingStorage.Backmapping>)
    : (r: Result<seq<BackmappingStorage.Backmapping>>)
    ensures r.Ok? <==> forall i :: 0 <= i < |inputs| ==> InputEntries(env, inputs[i]).Ok?
    ensures r.Ok? ==> forall b :: b in r.value <==>
      b in rows || exists e :: e in Collect(env, inputs).value && b == BackmappingStorage.RowOf(e)
    ensures r.Ok? && Rows.NoDuplicates(rows) ==> Rows.NoDuplicates(r.value)
  {
    var es :- Collect(env, inputs);
    Ok(BackmappingStorage.StoreAll(rows, DedupeStep(es)))
  }
}
