/** The evidence entries the backmapping step collects (the dicts appended
    to `all_votings` in src/Backmapping/SimpleBackmapping.py) and the image
    records they refer to.

    The `votings` of an entry come in two shapes in the source: a dict from
    source label to class map (`{"Segment": …, "Detection": …}`), and the
    two-element list `["Detection", {…}]` that
    `DetectionStorage.convert_to_voting_dict` builds. The two serialise to
    different JSON text, so they are kept apart here.
 */
module Evidence {
  import opened Analysis

  datatype Votings =
    | VoteDict(entries: seq<Vote>)
    | VotePair(vote: Vote)

  /** An original image as `BaseStorage.get_image_by_*` returns it. */
  datatype OrigImage = OrigImage(name: string, fullpath: string)

  /** One evidence entry: an absolute box in the original image's pixels,
      its votings, and the name of the record kind it came from. */
  datatype Evidence = Evidence(
    origName: string,
    origFullpath: string,
    xMin: int,
    xMax: int,
    yMin: int,
    yMax: int,
    votings: Votings,
    source: string)

  /** The class names of the record kinds, as `get_class().__name__` gives them. */
  const DetectionKind: string := "Detection"
  const SegmentKind: string := "Segment"

  function Width(e: Evidence): int { e.xMax - e.xMin }
  function Height(e: Evidence): int { e.yMax - e.yMin }
}
