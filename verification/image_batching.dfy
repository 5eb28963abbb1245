/** `ImageBatching.get_batches` (src/batching/ImageBatching.py): every
    image is stamped with its EXIF tag 306 (DateTime), the images are
    stably sorted by it and split wherever consecutive stamps are more than
    the `Batching_Timediff` option apart. */
module ImageBatching {
  import opened Wrappers
  import opened Batching
  import Seqs

  /** The EXIF tag the images are stamped with. */
  const DateTimeTag := 306

  /** The image could not be stamped: no tag 306, or a value that does
      not parse. */
  predicate Unstampable<P>(p: P, dateOf: P -> Option<string>, parse: string -> Result<int>) {
    dateOf(p).None? || parse(dateOf(p).value).Err?
  }

  /** The exception an unstampable image raises. The source indexes the
      EXIF data with the integer key 306; `KeyError` carries its key as
      text here, so the payload `"306"` stands for that integer. */
  function StampError<P>(p: P, dateOf: P -> Option<string>, parse: string -> Result<int>): Error
    requires Unstampable(p, dateOf, parse)
  {
    if dateOf(p).None? then Error.KeyError("306") else parse(dateOf(p).value).error
  }

  /** `data[i]` is the first image that cannot be stamped, and `e` is the
      error it raises. */
  predicate FirstUnstampable<P>(data: seq<P>, dateOf: P -> Option<string>, parse: string -> Result<int>, i: int, e: Error) {
    0 <= i < |data| && Unstampable(data[i], dateOf, parse) &&
    (forall j :: 0 <= j < i ==> !Unstampable(data[j], dateOf, parse)) &&
    e == StampError(data[i], dateOf, parse)
  }

  lemma FirstUnstampableShift<P>(data: seq<P>, dateOf: P -> Option<string>, parse: string -> Result<int>, i: int, e: Error)
    requires |data| > 0 && !Unstampable(data[0], dateOf, parse)
    requires FirstUnstampable(data[1..], dateOf, parse, i, e)
    ensures FirstUnstampable(data, dateOf, parse, i + 1, e)
  {
    assert forall j :: 0 < j < |data| ==> data[1..][j - 1] == data[j];
  }

  lemma StampableTail<P>(data: seq<P>, dateOf: P -> Option<string>, parse: string -> Result<int>)
    requires |data| > 0 && !Unstampable(data[0], dateOf, parse)
    ensures (forall i :: 0 <= i < |data| ==> !Unstampable(data[i], dateOf, parse)) <==>
      (forall i :: 0 <= i < |data[1..]| ==> !Unstampable(data[1..][i], dateOf, parse))
  {
    assert forall j :: 0 < j < |data| ==> data[1..][j - 1] == data[j];
  }

  lemma ItemsCons<P>(x: Stamped<P>, rest: seq<Stamped<P>>, data: seq<P>)
    requires |data| > 0 && data[0] == x.item && Items(rest) == data[1..]
    ensures Items([x] + rest) == data
  {
    assert Items([x] + rest) == [x.item] + Items(rest);
    assert data == [data[0]] + data[1..];
  }

  /** The image database of lines 20-29: one entry per image, in input
      order. A missing tag is a `KeyError`; `parse` is `strptime` with the
      format "%Y:%m:%d %H:%M:%S", giving seconds. */
  function Stamp<P>(data: seq<P>, dateOf: P -> Option<string>, parse: string -> Result<int>)
    : (r: Result<seq<Stamped<P>>>)
    ensures r.Ok? <==> forall i :: 0 <= i < |data| ==> !Unstampable(data[i], dateOf, parse)
    ensures r.Err? ==> exists i :: FirstUnstampable(data, dateOf, parse, i, r.error)
    ensures r.Ok? ==> Items(r.value) == data
  {
    if |data| == 0 then Ok([])
    else if Unstampable(data[0], dateOf, parse) then
      assert FirstUnstampable(data, dateOf, parse, 0, StampError(data[0], dateOf, parse));
      Err(StampError(data[0], dateOf, parse))
    else
      var p := data[0];
      var t := parse(dateOf(p).value).value;
      StampableTail(data, dateOf, parse);
      match Stamp(data[1..], dateOf, parse)
      case Err(e) =>
        var i :| FirstUnstampable(data[1..], dateOf, parse, i, e);
        FirstUnstampableShift(data, dateOf, parse, i, e);
        Err(e)
      case Ok(rest) =>
        ItemsCons(Stamped(p, t), rest, data);
        Ok([Stamped(p, t)] + rest)
  }

  /** `get_batches`: the batches of images, stamped, in time order. */
  method GetBatches<P>(data: seq<P>, dateOf: P -> Option<string>, parse: string -> Result<int>, maxDiff: real)
    returns (r: Result<seq<seq<Stamped<P>>>>)
    ensures r.Ok? <==> Stamp(data, dateOf, parse).Ok?
    ensures r.Ok? ==> Seqs.Flatten(r.value) == SortByTime(Stamp(data, dateOf, parse).value)
    ensures r.Ok? ==> Seqs.SumLengths(r.value) == |data|
    ensures r.Ok? ==> (|data| == 0 <==> r.value == [[]])
    ensures r.Ok? && |data| > 0 ==> forall k :: 0 <= k < |r.value| ==> |r.value[k]| > 0
    ensures r.Ok? ==> forall k :: 0 <= k < |r.value| ==> Tight(r.value[k], maxDiff)
    ensures r.Ok? ==> Separated(r.value, maxDiff)
  {
    var stamped :- Stamp(data, dateOf, parse);
    var batches := SplitByGap(SortByTime(stamped), maxDiff);
    Seqs.FlattenLength(batches);
    return Ok(batches);
  }
}
