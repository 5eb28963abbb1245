/** `TimeBatchingClass.run` (src/Batching/TimeBatching.py): every image
    contributes one timestamped entry per EXIF record named by the
    `exif_time_source` option, the entries are stably sorted and split
    wherever consecutive timestamps are more than `max_timediff_s` apart. */
module TimeBatching {
  import opened Wrappers
  import opened Batching
  import Seqs

  datatype ExifEntry = ExifEntry(name: string, value: string)

  /** An image instance with its stored EXIF records. */
  datatype ImageRecord<I> = ImageRecord(instance: I, exif: seq<ExifEntry>)

  /** What the run reports for the step: the number of batches, the size of
      each, and their total. */
  datatype Summary = Summary(numBatches: nat, batchSizes: seq<nat>, numImages: nat)

  /** The batches as stored (entries with their timestamps) and the summary. */
  datatype RunResult<I> = RunResult(batches: seq<seq<Stamped<I>>>, summary: Summary)

  /** Number of EXIF records named `tag`. */
  function TagCount(exif: seq<ExifEntry>, tag: string): nat {
    if |exif| == 0 then 0 else (if exif[0].name == tag then 1 else 0) + TagCount(exif[1..], tag)
  }

  /** Number of tagged records over all images. */
  function TagTotal<I>(images: seq<ImageRecord<I>>, tag: string): nat {
    if |images| == 0 then 0 else TagCount(images[0].exif, tag) + TagTotal(images[1..], tag)
  }

  /** Some EXIF record named `tag` does not parse as a date. */
  predicate BadDate(exif: seq<ExifEntry>, tag: string, parse: string -> Result<int>) {
    exists j :: 0 <= j < |exif| && exif[j].name == tag && parse(exif[j].value).Err?
  }

  /** The entries of one image (lines 31-38): one per record named `tag`,
      so an image without it contributes nothing and one with several
      records contributes several entries. `parse` is `strptime` with
      the format "%Y:%m:%d %H:%M:%S", giving seconds. */
  function ImageStamps<I>(inst: I, exif: seq<ExifEntry>, tag: string, parse: string -> Result<int>)
    : (r: Result<seq<Stamped<I>>>)
    ensures r.Err? <==> BadDate(exif, tag, parse)
    ensures r.Ok? ==> |r.value| == TagCount(exif, tag)
    ensures r.Ok? ==> forall k :: 0 <= k < |r.value| ==> r.value[k].item == inst
  {
    if |exif| == 0 then Ok([])
    else
      var here: Result<seq<Stamped<I>>> :=
        if exif[0].name == tag then
          (match parse(exif[0].value)
           case Ok(t) => Ok([Stamped(inst, t)])
           case Err(e) => Err(e))
        else Ok([]);
      assert BadDate(exif, tag, parse) <==> here.Err? || BadDate(exif[1..], tag, parse) by {
        if BadDate(exif[1..], tag, parse) {
          var j :| 0 <= j < |exif[1..]| && exif[1..][j].name == tag && parse(exif[1..][j].value).Err?;
          assert exif[j + 1] == exif[1..][j];
        }
        if BadDate(exif, tag, parse) && here.Ok? {
          var j :| 0 <= j < |exif| && exif[j].name == tag && parse(exif[j].value).Err?;
          assert j > 0 && exif[1..][j - 1] == exif[j];
        }
      }
      match here
      case Err(e) => Err(e)
      case Ok(first) =>
        match ImageStamps(inst, exif[1..], tag, parse)
        case Err(e) => Err(e)
        case Ok(rest) => Ok(first + rest)
  }

  /** Some image has a tagged record that does not parse. */
  predicate AnyBadDate<I>(images: seq<ImageRecord<I>>, tag: string, parse: string -> Result<int>) {
    exists i :: 0 <= i < |images| && BadDate(images[i].exif, tag, parse)
  }

  lemma AnyBadDateCons<I>(images: seq<ImageRecord<I>>, tag: string, parse: string -> Result<int>)
    requires |images| > 0
    ensures AnyBadDate(images, tag, parse) <==>
      BadDate(images[0].exif, tag, parse) || AnyBadDate(images[1..], tag, parse)
  {
    if AnyBadDate(images[1..], tag, parse) {
      var i :| 0 <= i < |images[1..]| && BadDate(images[1..][i].exif, tag, parse);
      assert images[i + 1] == images[1..][i];
    }
    if AnyBadDate(images, tag, parse) && !BadDate(images[0].exif, tag, parse) {
      var i :| 0 <= i < |images| && BadDate(images[i].exif, tag, parse);
      assert i > 0 && images[1..][i - 1] == images[i];
    }
  }

  /** `item` is the instance of some image that has a tagged record. */
  ghost predicate Tagged<I>(images: seq<ImageRecord<I>>, tag: string, item: I) {
    exists i :: 0 <= i < |images| && images[i].instance == item && TagCount(images[i].exif, tag) > 0
  }

  lemma TaggedTail<I>(images: seq<ImageRecord<I>>, tag: string, item: I)
    requires |images| > 0 && Tagged(images[1..], tag, item)
    ensures Tagged(images, tag, item)
  {
    var i :| 0 <= i < |images[1..]| && images[1..][i].instance == item && TagCount(images[1..][i].exif, tag) > 0;
    assert images[i + 1] == images[1..][i];
  }

  /** The image database of lines 26-38, in image order. */
  function Collect<I>(images: seq<ImageRecord<I>>, tag: string, parse: string -> Result<int>)
    : (r: Result<seq<Stamped<I>>>)
    ensures r.Err? <==> AnyBadDate(images, tag, parse)
    ensures r.Ok? ==> |r.value| == TagTotal(images, tag)
    ensures r.Ok? ==> forall k :: 0 <= k < |r.value| ==> Tagged(images, tag, r.value[k].item)
  {
    if |images| == 0 then Ok([])
    else
      AnyBadDateCons(images, tag, parse);
      match ImageStamps(images[0].instance, images[0].exif, tag, parse)
      case Err(e) => Err(e)
      case Ok(first) =>
        match Collect(images[1..], tag, parse)
        case Err(e) => Err(e)
        case Ok(rest) =>
          assert forall k :: 0 <= k < |first + rest| ==> Tagged(images, tag, (first + rest)[k].item) by {
            forall k | 0 <= k < |first + rest| ensures Tagged(images, tag, (first + rest)[k].item) {
              if k < |first| {
                assert (first + rest)[k] == first[k];
                assert images[0].instance == first[k].item && TagCount(images[0].exif, tag) > 0;
              } else {
                assert (first + rest)[k] == rest[k - |first|];
                TaggedTail(images, tag, rest[k - |first|].item);
              }
            }
          }
          Ok(first + rest)
  }

  /** The whole run: collect, sort, split, and summarise. An unparsable date
      aborts the run. */
  method Run<I>(images: seq<ImageRecord<I>>, tag: string, parse: string -> Result<int>, maxDiff: real)
    returns (r: Result<RunResult<I>>)
    ensures r.Err? <==> AnyBadDate(images, tag, parse)
    ensures r.Ok? ==> (Collect(images, tag, parse).Ok? &&
      Seqs.Flatten(r.value.batches) == SortByTime(Collect(images, tag, parse).value))
    ensures r.Ok? ==> forall k :: 0 <= k < |r.value.batches| ==> Tight(r.value.batches[k], maxDiff)
    ensures r.Ok? ==> Separated(r.value.batches, maxDiff)
    ensures r.Ok? ==> r.value.summary.numBatches == |r.value.batches| > 0
    ensures r.Ok? ==> (|r.value.summary.batchSizes| == |r.value.batches| &&
      forall k :: 0 <= k < |r.value.batches| ==> r.value.summary.batchSizes[k] == |r.value.batches[k]|)
    ensures r.Ok? ==> r.value.summary.numImages == TagTotal(images, tag)
  {
    var collected :- Collect(images, tag, parse);
    var sorted := SortByTime(collected);
    var batches := SplitByGap(sorted, maxDiff);
    var sizes := seq(|batches|, k requires 0 <= k < |batches| => |batches[k]| as nat);
    Seqs.FlattenLength(batches);
    SumSizes(batches, sizes);
    r := Ok(RunResult(batches, Summary(|batches|, sizes, Sum(sizes))));
  }

  function Sum(xs: seq<nat>): nat {
    if |xs| == 0 then 0 else Sum(xs[..|xs| - 1]) + xs[|xs| - 1]
  }

  lemma {:induction false} SumSizes<T>(batches: seq<seq<T>>, sizes: seq<nat>)
    requires |sizes| == |batches|
    requires forall k :: 0 <= k < |batches| ==> sizes[k] == |batches[k]|
    ensures Sum(sizes) == Seqs.SumLengths(batches)
  {
    if |batches| > 0 {
      SumSizes(batches[..|batches| - 1], sizes[..|sizes| - 1]);
    }
  }
}
