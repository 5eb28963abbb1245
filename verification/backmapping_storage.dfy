/** The backmapping table (src/Storage/BackmappingStorage.py): the evidence
    entries of all images, written with "insert unless identical" and read
    back per image. The `votings` column holds `json.dumps(votings)`, and
    the "identical" test compares that text. The model compares votings by
    value instead: a class map here is a `map`, which has no key order, so
    two class dicts that differ only in key order are one value here while
    their JSON texts differ. */
module BackmappingStorage {
  import opened Evidence
  import Rows
  import Ordering
  import Text

  datatype Backmapping = Backmapping(
    imageFullpath: string,
    imageName: string,
    source: string,
    votings: Votings,
    xMin: int,
    yMin: int,
    xMax: int,
    yMax: int)

  /** `store`: insert unless a row equal on all eight columns exists. */
  function Store(rows: seq<Backmapping>, imageFullpath: string, imageName: string, source: string,
                 votings: Votings, xMin: int, xMax: int, yMin: int, yMax: int): (r: seq<Backmapping>)
    ensures Backmapping(imageFullpath, imageName, source, votings, xMin, yMin, xMax, yMax) in r
    ensures forall b :: b in r <==> b in rows || b == Backmapping(imageFullpath, imageName, source, votings, xMin, yMin, xMax, yMax)
    ensures Backmapping(imageFullpath, imageName, source, votings, xMin, yMin, xMax, yMax) in rows ==> r == rows
    ensures Rows.NoDuplicates(rows) ==> Rows.NoDuplicates(r)
  {
    Rows.InsertIfAbsent(rows, Backmapping(imageFullpath, imageName, source, votings, xMin, yMin, xMax, yMax))
  }

  /** The row an evidence entry is stored as (the keyword call at the end
      of the backmapping step). */
  function RowOf(e: Evidence): (b: Backmapping)
    ensures b.imageFullpath == e.origFullpath && b.imageName == e.origName
    ensures b.source == e.source && b.votings == e.votings
    ensures (b.xMin, b.xMax, b.yMin, b.yMax) == (e.xMin, e.xMax, e.yMin, e.yMax)
  {
    Backmapping(e.origFullpath, e.origName, e.source, e.votings, e.xMin, e.yMin, e.xMax, e.yMax)
  }

  /** Storing every entry in turn. */
  function StoreAll(rows: seq<Backmapping>, es: seq<Evidence>): (r: seq<Backmapping>)
    ensures forall b :: b in r <==> b in rows || exists e :: e in es && b == RowOf(e)
    ensures Rows.NoDuplicates(rows) ==> Rows.NoDuplicates(r)
    decreases |es|
  {
    if |es| == 0 then rows
    else
      var e := es[0];
      var rows' := Store(rows, e.origFullpath, e.origName, e.source, e.votings, e.xMin, e.xMax, e.yMin, e.yMax);
      assert forall b :: b in rows' <==> b in rows || b == RowOf(e);
      var r := StoreAll(rows', es[1..]);
      assert forall x :: x in es <==> x == e || x in es[1..] by {
        assert es == [e] + es[1..];
      }
      r
  }

  /** `get_all_images`: the distinct image paths, ascending. */
  function GetAllImages(rows: seq<Backmapping>): (r: seq<string>)
    ensures Ordering.StrictlySorted(Text.StrLess, r)
    ensures forall p :: p in r <==> exists b :: b in rows && b.imageFullpath == p
  {
    var paths := Rows.Column(rows, (b: Backmapping) => b.imageFullpath);
    var r := Text.SortedDistinct(paths);
    assert forall p :: p in r <==> p in Ordering.Elems(paths);
    r
  }

  /** `get_backmappings_for_image`: that image's rows, in table order. */
  function GetBackmappingsForImage(rows: seq<Backmapping>, image: string): (r: seq<Backmapping>)
    ensures forall b :: b in r <==> b in rows && b.imageFullpath == image
  {
    Rows.Select(rows, (b: Backmapping) => b.imageFullpath == image)
  }
}
