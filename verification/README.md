# ShadowWolf core in Dafny

ShadowWolf is a pipeline that finds animals in camera-trap images. It runs
configured steps in order: batching, segmentation, detection, labelling,
backmapping and decision. Each step writes its results to an SQLite store,
and the next step reads them. This project models the deterministic logic
those steps share. It proves what that logic guarantees.

- **Box analysis** (`analysis.dfy`, `merging.dfy`). This covers
  `src/wolf_utils/analysis_helper.py`:
  - the IoU of two centre-form boxes, with its `1e-16` guard;
  - the corner-wise union;
  - combining votings and listing their classes;
  - the box-merging fixpoint of `condense_votings`;
  - the weighted fusion of class votes;
  - the conversion to corner form.
- **Decision** (`decision.dfy`). Lines 69-104 of
  `src/Decision/WeightedDecision.py`. The dominant class of every condensed
  box is kept. Boxes whose class is above the ignore threshold are dropped.
  One row per survivor goes to the final table. As written, `run` never
  reaches these lines (see "## Left out").
- **Backmapping** (`evidence.dfy`, `backmapping.dfy`). This covers
  `src/Backmapping/SimpleBackmapping.py`:
  - each label is traced back to the segment or detection it was made for;
  - the box is moved into the original image's pixels;
  - one evidence entry is produced for the label and one for each of its
    duplicates;
  - the entries are stored.
- **Stores** (`detection_storage.dfy`, `duplicate_storage.dfy`,
  `backmapping_storage.dfy`, `final_storage.dfy`, `rows.dfy`). Each table is a
  sequence of rows in insertion order. The duplicate store is a graph of
  images, with ids given in insertion order.
- **Image helpers** (`image_handling.dfy`). The integer rectangle helpers of
  `src/wolf_utils/ImageHandling.py`.
- **Batching** (`batching.dfy`, `time_batching.dfy`, `image_batching.dfy`,
  `misc.dfy`). Both time-gap batchers: a stable sort by timestamp, then a
  split wherever the gap exceeds the limit. Also the fixed-size chunking of
  `misc.batch`.
- **Square labels** (`squared_labels.dfy`). The box helpers of
  `tools/createSquaredLabels.py`, and the sorted de-duplication of its outer
  boxes.
- **Dataset comparison** (`compare.dfy`).
  `tools/compare_yolo_datasets_union.py`:
  - greedy matching of detections against ground truth in one file;
  - summing the counts over the union of file names;
  - precision, recall and F1.
- **Step configuration** (`base_config.dfy`). The config getters of
  `src/BaseClass.py` and the step identifier.

Shared definitions live in these files:

- `wrappers.dfy`: a `Result` type whose errors are Python's exceptions;
- `seqs.dfy`: flatten and filter;
- `ordering.dfy`: strict sorting and its uniqueness;
- `text.dfy`: integer/string conversion, string order and base names;
- `numeric.dfy`: truncation, and rounding half to even.

Python exceptions are `Err` values. Database queries, the configured
getters and timestamp parsing are function parameters.

A few places where the code does something other than its own docstrings
or a first reading suggest; the model follows the code:

- `bbox_iou` adds `1e-16` to its denominator. Over the reals, the IoU of a
  box with itself is therefore below 1 (`Analysis.IouSelf`). In IEEE
  doubles the `1e-16` is absorbed once the union area is at least 1, so
  there the program returns exactly 1.0. The model states the real-number
  fact only.
- `bbox_union` reads `(x, y)` as the top-left corner, although the boxes it
  receives are centre-form: the docstring of `condense_votings`
  (`analysis_helper.py`, line 107) gives `boxes_list` as
  `((x_center, y_center, w, h), ...)`. The model keeps the corner reading.
- One merge pass of `condense_votings` emits a merged box for every
  qualifying pair. So a pass can produce more boxes than it received.
- `get_module_config` with no run number and no module of that name
  returns `{}`. The `elif` is never evaluated, so nothing is raised.
- In `TimeBatching.run`, the `continue` inside the EXIF loop has no effect.
  An image with two matching EXIF records therefore contributes two
  entries.
- `intersect` in `createSquaredLabels.py` only tests the edges of its second
  argument, so it is not symmetric (`SquaredLabels.IntersectNotSymmetric`).

## Model

| member | source | states |
|---|---|---|
| Analysis.TryIou | src/wolf_utils/analysis_helper.py:10-38 | IoU raises ZeroDivisionError exactly when its denominator is zero; otherwise it is intersection over union-plus-epsilon |
| Analysis.IouSymmetric | src/wolf_utils/analysis_helper.py:10-38 | IoU does not depend on argument order |
| Analysis.InterAreaBounds | src/wolf_utils/analysis_helper.py:21-34 | for boxes of non-negative size, the clipped intersection area lies between 0 and each box's area |
| Analysis.IouBounds | src/wolf_utils/analysis_helper.py:10-38 | for boxes of non-negative size, the denominator is at least 1e-16 and, over the reals, the IoU lies in [0, 1) |
| Analysis.IouSelf | src/wolf_utils/analysis_helper.py:33-36 | over the reals, a box's IoU with itself is area / (area + 1e-16), which is below 1 (in doubles this rounds to 1.0 for areas of at least 1) |
| Analysis.IouDisjoint | src/wolf_utils/analysis_helper.py:21-36 | boxes separated on some axis have IoU 0 |
| Analysis.BboxUnion | src/wolf_utils/analysis_helper.py:41-60 | the union contains both boxes (corner reading) and is the smallest such box; a non-negative input keeps it non-negative |
| Analysis.BboxUnionCommutative | src/wolf_utils/analysis_helper.py:41-60 | the union does not depend on argument order |
| Analysis.CombineVotings | src/wolf_utils/analysis_helper.py:63-80 | flattening keeps every voting: the length is the sum of the lengths |
| Analysis.CombinePair | src/wolf_utils/analysis_helper.py:75-80 | combining two votings is their concatenation |
| Analysis.PossibleClasses | src/wolf_utils/analysis_helper.py:83-98 | a class is possible exactly when some voting names it |
| Analysis.MergeOf | src/wolf_utils/analysis_helper.py:127 | a merged entry's box contains both boxes, and its votes are both vote lists in order |
| Merging.PairsFrom | src/wolf_utils/analysis_helper.py:122-127 | scans pairs in `combinations` order: it fails exactly when some pair's score fails (with that pair's error), and on success returns exactly the qualifying pairs, strictly ordered |
| Merging.QualifyingPairs | src/wolf_utils/analysis_helper.py:122-126 | succeeds exactly when every pair can be scored, and then lists exactly the pairs over the threshold |
| Merging.Combined | src/wolf_utils/analysis_helper.py:125-126 | `combined_boxes` holds exactly the members of the qualifying pairs |
| Merging.Merged | src/wolf_utils/analysis_helper.py:127 | one merged element per qualifying pair, in pair order |
| Merging.Kept | src/wolf_utils/analysis_helper.py:129-131 | an element is kept exactly when it is in the list and took part in no qualifying pair |
| Merging.Pass | src/wolf_utils/analysis_helper.py:119-133 | a pass fails exactly when some pair cannot be scored; it reports a change exactly when some pair qualifies |
| Merging.PassMergesEveryPair | src/wolf_utils/analysis_helper.py:122-127 | every qualifying pair's merge is in the pass's output |
| Merging.PassOutputOrigin | src/wolf_utils/analysis_helper.py:122-131 | every output element is the merge of a qualifying pair, or an input element that took part in none |
| Merging.PassUnchanged | src/wolf_utils/analysis_helper.py:129-135 | a pass that merges nothing returns its input unchanged |
| Merging.Cluster | src/wolf_utils/analysis_helper.py:118-135 | a converged loop leaves no pair above the threshold |
| Merging.ClusterOfSeparated | src/wolf_utils/analysis_helper.py:118-135 | a list with no pair above the threshold is returned as it is |
| Merging.ClusterIdempotent | src/wolf_utils/analysis_helper.py:118-135 | condensing a condensed list changes nothing |
| Analysis.Cluster | src/wolf_utils/analysis_helper.py:118-135 | after box merging, no two boxes left have an IoU above the threshold |
| Analysis.Accumulate | src/wolf_utils/analysis_helper.py:146-154 | the inner loop fails with the missing-weight ValueError exactly when a contributing source has no weight; otherwise it adds up the weights and the weighted probabilities |
| Analysis.FuseClass | src/wolf_utils/analysis_helper.py:143-156 | a class's fused value is weighted mass over summed weight; a missing weight is a ValueError and a zero weight sum fails |
| Analysis.NoMissingWeight | src/wolf_utils/analysis_helper.py:147-151 | when every source of the votings has a weight, no class misses one |
| Analysis.Fuse | src/wolf_utils/analysis_helper.py:140-157 | fusion fails exactly when some possible class fails (missing weight first, otherwise ZeroDivisionError); on success its keys are exactly the possible classes, with their fused values |
| Analysis.FuseAll | src/wolf_utils/analysis_helper.py:140-158 | one fused entry per box, in order, with the box unchanged; an error comes from some box |
| Analysis.CondenseVotings | src/wolf_utils/analysis_helper.py:101-158 | once the merge loop converges, the result is exactly the fusion of the merged boxes: entry k is merged box k with its fused class map; no two result boxes overlap above the threshold; merge errors are passed through |
| Analysis.CondenseOfSeparated | src/wolf_utils/analysis_helper.py:101-158 | boxes that already overlap no more than the threshold are not merged: the result is each input box with its own votes fused |
| Analysis.WeightSign | src/wolf_utils/analysis_helper.py:146-153 | with positive weights, the weight sum is non-negative, and positive when some voting contributes |
| Analysis.MassBounds | src/wolf_utils/analysis_helper.py:153-154 | the weighted mass lies between lo and hi times the weight sum |
| Analysis.FusedWithinBounds | src/wolf_utils/analysis_helper.py:143-156 | a fused probability lies between the smallest and largest contributing probability |
| Analysis.SingleVoteClass | src/wolf_utils/analysis_helper.py:143-156 | with one voting, a class's fused value is that voting's probability |
| Analysis.FuseSingleVote | src/wolf_utils/analysis_helper.py:140-157 | fusing a single voting returns its class map unchanged |
| Analysis.ToXminXmax | src/wolf_utils/analysis_helper.py:161-179 | truncation keeps the corners ordered for boxes of non-negative size |
| FinalStorage.CenterRoundTrip | src/Storage/FinalDetectionStorage.py:35-47 | for even widths and heights, `to_xmin_xmax` of the stored centre box gives back the stored corners |
| FinalStorage.GetBoxCenterWh | src/Storage/FinalDetectionStorage.py:35-47 | width and height are the corner differences; each centre is within half a pixel of the true centre |
| FinalStorage.GetBoxXminXmax | src/Storage/FinalDetectionStorage.py:49-56 | the corners in (x_min, x_max, y_min, y_max) order |
| FinalStorage.Store | src/Storage/FinalDetectionStorage.py:71-108 | after a store the row is present and nothing else is added; a row already present is not stored twice; the table stays free of duplicates |
| FinalStorage.GetAllImages | src/Storage/FinalDetectionStorage.py:110-112 | the distinct image paths of the table, in ascending order |
| FinalStorage.GetDetectionsForImage | src/Storage/FinalDetectionStorage.py:114-116 | exactly the rows of the image whose probability reaches the threshold |
| FinalStorage.DefaultThresholdKeepsAll | src/Storage/FinalDetectionStorage.py:114-116 | with the default threshold 0 and non-negative probabilities, every row of the image is returned |
| WeightedDecision.ArgMax | src/Decision/WeightedDecision.py:74 | `max(d, key=d.get)` returns a key of maximal value, and raises ValueError exactly on an empty dict |
| WeightedDecision.SelectMajor | src/Decision/WeightedDecision.py:71-75 | one major per box, carrying a maximal class and its value; raises exactly when some class map is empty |
| WeightedDecision.FilterIgnored | src/Decision/WeightedDecision.py:77-81 | keeps, in order, exactly the majors whose class is not above the threshold; raises when some class is not an integer |
| WeightedDecision.FilterIgnoredSurvivors | src/Decision/WeightedDecision.py:77-81 | a box whose dominant class is ignored is dropped whole, and no runner-up class replaces it |
| WeightedDecision.RowFor | src/Decision/WeightedDecision.py:87-104 | a row carries the image, its base name, the parsed class and its stored class name, the fused value, and the box in corner form; it fails exactly when the class cannot be parsed or named |
| WeightedDecision.RowsCons | src/Decision/WeightedDecision.py:86-104 | row outcomes split into the first box and the rest |
| WeightedDecision.StoreRows | src/Decision/WeightedDecision.py:86-104 | succeeds exactly when every box yields a row; the table then holds exactly the old rows and the new ones, still without duplicates |
| WeightedDecision.RowFromVote | src/Decision/WeightedDecision.py:71-104 | a row stored for a surviving entry is for this image and carries a maximal class of one condensed box, not above the threshold, with its fused value and corners |
| WeightedDecision.KeptRows | src/Decision/WeightedDecision.py:81-104 | the rows over the filtered list are exactly the rows over the boxes that survive the filter, and succeed together |
| WeightedDecision.DecideImage | src/Decision/WeightedDecision.py:69-104 | the picked classes are maximal classes of the boxes; the step succeeds exactly when every box has a class, every picked class parses and every surviving box finds its class name; the table is then the old rows plus exactly the rows of the surviving boxes, each for this image with a maximal class not above the threshold and its fused value; an empty class map raises |
| DetectionStorage.ConvertToVotingDict | src/Storage/DetectionStorage.py:56-69 | the entry keeps the detection's box and the original image's name and path; its votings are ["Detection", {str(class): confidence}] |
| DetectionStorage.ConvertedClassRoundTrip | src/Storage/DetectionStorage.py:56-69 | the class key of a converted detection parses back to the detection's class number |
| DetectionStorage.StoreDetection | src/Storage/DetectionStorage.py:72-90 | a store appends exactly one row holding the given path, cut image, class name and number, confidence and corners, tagged with the store's source class and getter; earlier rows are unchanged |
| DetectionStorage.GetImages | src/Storage/DetectionStorage.py:92-98 | with no image, all rows; otherwise exactly the rows of that cut image |
| DetectionStorage.StoreThenGetImages | src/Storage/DetectionStorage.py:72-98 | after storing a row, querying its cut image gives the earlier answer followed by the new row |
| DetectionStorage.NamesForCons | src/Storage/DetectionStorage.py:111-113 | the class names recorded for an id split into the first row and the rest |
| DetectionStorage.ClassNameIn | src/Storage/DetectionStorage.py:111-113 | `scalar_one_or_none` over the distinct names: None when there are none, the single name when there is one, MultipleResultsFound when there are two |
| DetectionStorage.GetClassNameById | src/Storage/DetectionStorage.py:111-113 | the same three cases, stated over the table's rows |
| DetectionStorage.StoreThenClassName | src/Storage/DetectionStorage.py:72-113 | after storing a detection whose class id no earlier row names differently, `get_class_name_by_id` of that id gives the stored class name |
| DuplicateStorage.IdOf | src/Storage/DuplicateStorage.py:63-65 | the id of a path is one more than the position of its first row, or None when absent |
| DuplicateStorage.IdOfUnique | src/Storage/DuplicateStorage.py:63-65 | in a store with unique paths, each row's path gives that row's id |
| DuplicateStorage.IdOfFound | src/Storage/DuplicateStorage.py:63-65 | every stored path has an id |
| DuplicateStorage.IdOfAppend | src/Storage/DuplicateStorage.py:69-91 | appending a row gives an id only to a path that was absent before |
| DuplicateStorage.Register | src/Storage/DuplicateStorage.py:69-91 | an image is added only when its path is not stored yet |
| DuplicateStorage.RegisterFacts | src/Storage/DuplicateStorage.py:69-91 | registering keeps paths unique and assigns the next id to a new path |
| DuplicateStorage.AddDuplicate | src/Storage/DuplicateStorage.py:67-98 | at most two images are appended and both end up stored; the edge (duplicate, original) is present and is the only edge added |
| DuplicateStorage.AddDuplicateValid | src/Storage/DuplicateStorage.py:67-98 | adding a duplicate keeps paths unique, edges in range and every edge stored once |
| DuplicateStorage.Similar | src/Storage/DuplicateStorage.py:100-107 | None exactly for an unknown path; otherwise exactly the paths of the images joined to it by an association row in either direction (with unique paths: exactly the stored paths whose id is so joined) |
| DuplicateStorage.NeighbourLinked | src/Storage/DuplicateStorage.py:105-106 | `right_images` plus `left_images` are exactly the ids joined to the image by an association row |
| DuplicateStorage.SimilarMember | src/Storage/DuplicateStorage.py:100-107 | a path is listed exactly when a node with that path is joined to the image; with unique paths, exactly when that path's own id is |
| DuplicateStorage.SimilarSymmetric | src/Storage/DuplicateStorage.py:100-107 | similarity is symmetric, since both edge directions are read |
| DuplicateStorage.AddDuplicateLinks | src/Storage/DuplicateStorage.py:67-107 | after adding a duplicate, each of the two images is similar to the other |
| DuplicateStorage.AddDuplicateIdempotent | src/Storage/DuplicateStorage.py:93-98 | adding the same duplicate twice changes nothing the second time |
| DuplicateStorage.ChainExample | src/Storage/DuplicateStorage.py:67-98 | a, b then b, c on an empty store gives ids 1, 2, 3 and the edges (2, 1) and (3, 2) |
| DuplicateStorage.NotTransitive | src/Storage/DuplicateStorage.py:100-107 | similarity covers direct neighbours only: a is similar to b and b to c, but c is not similar to a |
| DuplicateStorage.FirstIn | src/Storage/DuplicateStorage.py:116-117 | the smallest id of the candidates |
| DuplicateStorage.MainSimilar | src/Storage/DuplicateStorage.py:109-117 | an unknown path is returned as is; otherwise the image itself or one of its similar images |
| DuplicateStorage.MainSimilarMinimal | src/Storage/DuplicateStorage.py:109-117 | the main image has the smallest id among the image and its similar images |
| BackmappingStorage.Store | src/Storage/BackmappingStorage.py:61-85 | after a store the row is present and nothing else is added; a row already present is not stored twice; the table stays free of duplicates |
| BackmappingStorage.RowOf | src/Backmapping/SimpleBackmapping.py:295-306 | the stored row carries the entry's original image, source, votings and box |
| BackmappingStorage.StoreAll | src/Backmapping/SimpleBackmapping.py:295-306 | storing all entries adds exactly their rows and keeps the table free of duplicates |
| BackmappingStorage.GetAllImages | src/Storage/BackmappingStorage.py:87-89 | the distinct image paths, in ascending order |
| BackmappingStorage.GetBackmappingsForImage | src/Storage/BackmappingStorage.py:91-93 | exactly the rows of the image |
| SimpleBackmapping.DuplicatesOf | src/Backmapping/SimpleBackmapping.py:55-62 | no duplicates without a getter, or when it returns None; otherwise the getter's list |
| SimpleBackmapping.Compose | src/Backmapping/SimpleBackmapping.py:237-240 | the detection's box is moved by the segment's top-left corner, and its size is kept |
| SimpleBackmapping.ComposeExample | src/Backmapping/SimpleBackmapping.py:237-240 | the segment (100, 50) with the local box (10, 10)-(60, 60) gives (110, 60)-(160, 110) |
| SimpleBackmapping.DetectionVote | src/Backmapping/SimpleBackmapping.py:244-247 | a detection votes `{str(class): confidence}` under "Detection" |
| SimpleBackmapping.ComposedEntry | src/Backmapping/SimpleBackmapping.py:237-258 | a detection entry has the composed box, the detection's size, the segment's original image, and the "Detection" tag |
| SimpleBackmapping.SegmentEntry | src/Backmapping/SimpleBackmapping.py:151-163 | a segment entry has the segment's own box, its original image, and the "Segment" tag |
| SimpleBackmapping.SegmentDup | src/Backmapping/SimpleBackmapping.py:165-223 | a duplicate with no record, even after the fallback, is the "Cannot resoulve duplicate" ValueError; a segment record gives its own entry and a detection record the entry composed with its first source segment, both with the label votes only; a detection record with no source segment raises IndexError; a record of another class adds nothing |
| SimpleBackmapping.DupRecord | src/Backmapping/SimpleBackmapping.py:166-176 | a duplicate resolves to the first record of the label's getter, else to the first record of the fallback, else to nothing |
| SimpleBackmapping.SegmentDupsAppend | src/Backmapping/SimpleBackmapping.py:165-223 | the duplicates of two runs resolve together, and their entries are those of each run, in order |
| SimpleBackmapping.SegmentDupOfSelf | src/Backmapping/SimpleBackmapping.py:151-220 | a duplicate whose record is the label's own segment yields the label's main entry again |
| SimpleBackmapping.SegmentDups | src/Backmapping/SimpleBackmapping.py:165-223 | succeeds exactly when every duplicate resolves; each duplicate adds at most one entry |
| SimpleBackmapping.SegmentPath | src/Backmapping/SimpleBackmapping.py:145-223 | the segment's own entry comes first, followed by exactly the duplicates' entries; every entry carries the label votes |
| SimpleBackmapping.DetectionDup | src/Backmapping/SimpleBackmapping.py:260-285 | the entry is the duplicate's first record composed with the first segment the main detection's segment getter returns for it, voted by the label and by that record; IndexError exactly when the record or that segment is missing; AttributeError exactly when the record is no detection |
| SimpleBackmapping.DetectionDups | src/Backmapping/SimpleBackmapping.py:260-285 | exactly one entry per duplicate, in order, when all resolve |
| SimpleBackmapping.DetectionDupsAppend | src/Backmapping/SimpleBackmapping.py:260-285 | the duplicates of two runs resolve together, and their entries are those of each run, in order |
| SimpleBackmapping.DetectionDupOfSelf | src/Backmapping/SimpleBackmapping.py:225-285 | a duplicate whose record is the label's own detection yields the label's main entry again |
| SimpleBackmapping.DetectionPath | src/Backmapping/SimpleBackmapping.py:225-285 | it succeeds exactly when the detection has a source segment and every duplicate resolves; the detection composed with its first segment and voted by label and detection comes first, then the entry of each duplicate in order |
| SimpleBackmapping.LabelEntries | src/Backmapping/SimpleBackmapping.py:67-74 | a label without exactly one source record is the "Number of images is not 1" ValueError; a record of an unknown kind is the "MISSING" ValueError |
| SimpleBackmapping.LabelEntriesAsWritten | src/Backmapping/SimpleBackmapping.py:67-76 | as written, every label raises: ValueError when the source count is not one, TypeError otherwise |
| SimpleBackmapping.SegmentLabelEntries | src/Backmapping/SimpleBackmapping.py:145-163 | a label with one segment source and no duplicates yields exactly that segment's entry |
| SimpleBackmapping.AsWrittenRaisesOnSegmentLabel | src/Backmapping/SimpleBackmapping.py:76 | on such a label the intended result exists, but the code as written raises TypeError |
| SimpleBackmapping.InputEntries | src/Backmapping/SimpleBackmapping.py:64-74 | a detection input is converted directly; a label input is traced back |
| SimpleBackmapping.InputEntriesAsWritten | src/Backmapping/SimpleBackmapping.py:55-145 | as written, no input gets through: a label input raises AttributeError; a detection input raises AttributeError exactly when a duplicate getter is configured, and UnboundLocalError at line 145 exactly when none is |
| SimpleBackmapping.AsWrittenRaisesOnInputs | src/Backmapping/SimpleBackmapping.py:55-145 | a label the intended code maps to one segment entry raises AttributeError as written; a detection the intended code converts raises UnboundLocalError without a duplicate getter and AttributeError with one |
| SimpleBackmapping.Collect | src/Backmapping/SimpleBackmapping.py:46-289 | succeeds exactly when every input does; the result is their entries concatenated in input order, at least one per input |
| SimpleBackmapping.Lookup | src/Backmapping/SimpleBackmapping.py:292 | `dict(items)` finds a key exactly when some item has it |
| SimpleBackmapping.LookupLast | src/Backmapping/SimpleBackmapping.py:292 | `dict(items)` keeps the last value given for a key |
| SimpleBackmapping.Items | src/Backmapping/SimpleBackmapping.py:292 | an entry has its eight fields as items |
| SimpleBackmapping.ItemsRoundTrip | src/Backmapping/SimpleBackmapping.py:292 | `dict(tuple(d.items()))` gives back the entry |
| SimpleBackmapping.DedupeStep | src/Backmapping/SimpleBackmapping.py:291-293 | the de-duplication line leaves the list unchanged |
| SimpleBackmapping.Run | src/Backmapping/SimpleBackmapping.py:46-306 | succeeds exactly when every input does; the table then holds the old rows plus exactly one row per collected entry, still without duplicates |
| ImageHandling.Union | src/wolf_utils/ImageHandling.py:30-35 | the union contains both boxes and is contained in every box that contains both |
| ImageHandling.UnionCommutative | src/wolf_utils/ImageHandling.py:30-35 | the union does not depend on argument order |
| ImageHandling.Intersect | src/wolf_utils/ImageHandling.py:37-44 | for boxes of non-negative size, true exactly when they share an integer point (touching counts) |
| ImageHandling.IntersectSymmetric | src/wolf_utils/ImageHandling.py:37-44 | the test does not depend on argument order |
| ImageHandling.Hull | src/wolf_utils/ImageHandling.py:30-35 | the hull of a list contains every box of it and lies inside every box that contains them all |
| ImageHandling.GroupPass | src/wolf_utils/ImageHandling.py:57-71 | one pass never adds boxes, every input box is contained in some output box, and every output box lies inside the hull of the inputs |
| ImageHandling.GroupRectangles | src/wolf_utils/ImageHandling.py:46-72 | no more boxes than before; every input box is inside some output box; every output box lies inside the hull of the inputs; zero iterations change nothing |
| ImageHandling.ExtendBox | src/wolf_utils/ImageHandling.py:75-86 | a non-negative percentage never shrinks a box; 0 percent leaves it unchanged |
| ImageHandling.ExtendBoxes | src/wolf_utils/ImageHandling.py:75-86 | every box is extended, in order; 0 percent leaves the list unchanged |
| ImageHandling.SquareBox | src/wolf_utils/ImageHandling.py:89-99 | a square with side max(w, h), whose corner is within a pixel of the corner centred on the box |
| ImageHandling.SquaredBoxes | src/wolf_utils/ImageHandling.py:89-99 | every box is squared, in order |
| ImageHandling.FilterSmallBoxes | src/wolf_utils/ImageHandling.py:15-27 | keeps, in order, exactly the boxes that are not 4-tuples with w * h below the minimum |
| Batching.Insert | src/Batching/TimeBatching.py:39 | inserting into an ordered list keeps it ordered and adds exactly the one entry (as multisets) |
| Batching.SortByTime | src/Batching/TimeBatching.py:39 | the sort gives an ordered permutation |
| Batching.SortStable | src/Batching/TimeBatching.py:39 | the sort is stable: entries with equal times keep their order |
| Batching.SplitByGap | src/Batching/TimeBatching.py:41-54 | the batches concatenate to the input; a batch is never empty unless the input is; gaps inside a batch are within the limit and gaps between batches exceed it |
| Batching.CloseBatch | src/Batching/TimeBatching.py:49-51 | closing a non-empty, tight open batch that starts past the gap keeps the batches non-empty, tight and separated, and their concatenation grows by exactly that batch |
| Batching.Advance | src/Batching/TimeBatching.py:44-53 | one step of the split: a new batch opens exactly when the gap exceeds the limit |
| Batching.Items | src/Batching/TimeBatching.py:47-52 | the images of the stamped entries, in order |
| TimeBatching.ImageStamps | src/Batching/TimeBatching.py:31-38 | an image gives one entry per EXIF record with the configured name, and fails exactly when one of those dates does not parse |
| TimeBatching.Collect | src/Batching/TimeBatching.py:26-38 | the image database holds all tagged records of all images, and fails exactly when some date does not parse; every entry's image has a record with the configured name |
| TimeBatching.Run | src/Batching/TimeBatching.py:19-67 | the batches are the sorted database split by gaps, and the summary counts them and their sizes |
| TimeBatching.SumSizes | src/Batching/TimeBatching.py:65-66 | `num_images` is the sum of the batch sizes |
| ImageBatching.Stamp | src/batching/ImageBatching.py:20-29 | each image is paired with its EXIF date, in order; the first image without a tag (KeyError) or with an unparsable date fails |
| ImageBatching.GetBatches | src/batching/ImageBatching.py:15-47 | the batches are the sorted images split by gaps; they hold every image once; empty input gives one empty batch |
| Misc.Chunks | src/wolf_utils/misc.py:3-6 | the chunks concatenate to the input; all but the last have n items, and the last has 1 to n |
| Misc.ChunkCount | src/wolf_utils/misc.py:3-6 | the number of chunks is the ceiling of the length over n |
| Misc.Batch | src/wolf_utils/misc.py:3-6 | a zero step is range's ValueError; a negative step gives nothing; otherwise the chunks concatenate to the input, all but the last have exactly n items and the last 1 to n, and the count is the ceiling of length over n |
| SquaredLabels.InsideIffPoints | tools/createSquaredLabels.py:34-37 | inside means the inner box is well formed and every point of it lies in the outer box |
| SquaredLabels.Intersect | tools/createSquaredLabels.py:39-44 | a contained second box intersects; a second box spanning the first on one axis does not; a positive answer names a shared corner of the second box |
| SquaredLabels.IntersectNotSymmetric | tools/createSquaredLabels.py:39-44 | an enclosed box intersects its encloser, but not the other way round |
| SquaredLabels.FitIntoImage | tools/createSquaredLabels.py:47-65 | the box is only moved, never resized; its far edges end up inside the image, and its near edges too when it fits; a box already inside is unchanged |
| SquaredLabels.Clamp | tools/createSquaredLabels.py:70-73 | min(max(v, 0), hi) is the point of [0, hi] nearest to v |
| SquaredLabels.CutToBox | tools/createSquaredLabels.py:67-74 | every coordinate ends up inside the patch; a box already inside is unchanged |
| SquaredLabels.CutToBoxIdempotent | tools/createSquaredLabels.py:67-74 | cutting twice is cutting once |
| SquaredLabels.SortBoxes | tools/createSquaredLabels.py:163 | `outer_boxes.sort()` gives an ascending permutation under list order |
| SquaredLabels.GroupBy | tools/createSquaredLabels.py:164 | `groupby` keeps the same elements; on sorted input the result is strictly ascending |
| SquaredLabels.OuterBoxes | tools/createSquaredLabels.py:161-164 | the outer boxes are the distinct boxes in strictly ascending order |
| SquaredLabels.OuterBoxesUnique | tools/createSquaredLabels.py:161-164 | any strictly ascending listing of the same boxes is this one |
| CompareYolo.IouSymmetricInUnit | tools/compare_yolo_datasets_union.py:30-57 | the file's IoU is defined for boxes of non-negative size, symmetric, and, over the reals, lies in [0, 1) |
| CompareYolo.ParseEntries | tools/compare_yolo_datasets_union.py:68-84 | one entry per non-empty line, in order, with the first character as its class; fails exactly when some non-empty line does not parse |
| CompareYolo.RecordKeepsInv | tools/compare_yolo_datasets_union.py:94-102 | matching an unmatched over-threshold pair keeps the flags equal to the matched indices and the pairs injective |
| CompareYolo.Visit | tools/compare_yolo_datasets_union.py:89-102 | one pair of the double loop raises exactly on a zero IoU denominator; it matches only unmatched pairs over the threshold |
| CompareYolo.MatchRow | tools/compare_yolo_datasets_union.py:88-102 | after the inner loop, an unmatched ground truth is over the threshold with no unmatched detection |
| CompareYolo.MatchAll | tools/compare_yolo_datasets_union.py:87-102 | after the double loop, no unmatched ground truth and unmatched detection are over the threshold, and the loop raises exactly when some IoU is undefined |
| CompareYolo.CompareBoxes | tools/compare_yolo_datasets_union.py:60-109 | tp counts the same-class pairs; fp counts mismatched pairs plus unmatched detections; fn counts unmatched ground truths; tp + fp is the number of detections, tp + fn is at most the number of ground truths, and tn is 0 |
| CompareYolo.SameClassBound | tools/compare_yolo_datasets_union.py:94-102 | the true positives never exceed the matched pairs |
| CompareYolo.NonEmpty | tools/compare_yolo_datasets_union.py:128-129 | after the `if len(...)` filter, every kept line counts |
| CompareYolo.FileCounts | tools/compare_yolo_datasets_union.py:124-152 | a detection-only file counts its lines as false positives; a ground-truth-only file counts its lines as false negatives; a shared file is compared |
| CompareYolo.SumListIsSumOver | tools/compare_yolo_datasets_union.py:124 | summing over any duplicate-free listing of the names gives the sum over the set, whatever the iteration order |
| CompareYolo.AddFile | tools/compare_yolo_datasets_union.py:134-152 | adding one file's counts keeps the running totals bounded by the lines seen |
| CompareYolo.Step | tools/compare_yolo_datasets_union.py:124-152 | one iteration keeps the totals invariant |
| CompareYolo.ListNames | tools/compare_yolo_datasets_union.py:116-118 | the union of file names, without `classes.txt`, listed once each |
| CompareYolo.Aggregate | tools/compare_yolo_datasets_union.py:113-152 | tp + fp is the number of detection lines; tp + fn is at most the number of ground-truth lines; tn is 0; with no shared file, every detection is a false positive and every ground truth a false negative |
| CompareYolo.Score | tools/compare_yolo_datasets_union.py:157-159 | precision, recall and F1 exist exactly when tp > 0 (otherwise a division by zero); precision and recall lie in (0, 1], and F1 is 2tp / (2tp + fp + fn) |
| CompareYolo.F1Identity | tools/compare_yolo_datasets_union.py:159 | the harmonic mean of precision and recall equals 2tp / (2tp + fp + fn) |
| BaseConfig.FindKey | src/BaseClass.py:89-92 | the value from the highest step in 1..run_num holding the key; None exactly when no such step holds it |
| BaseConfig.MainGet | src/BaseClass.py:85-93 | `main_config.get(key)`; a missing main config is a KeyError |
| BaseConfig.GetLastConfig | src/BaseClass.py:89-93 | no run number is a TypeError; a run number past the module list is an IndexError; otherwise the latest step's value, falling back to the main config |
| BaseConfig.LastConfigIgnoresStepZero | src/BaseClass.py:89-93 | step 0 is never consulted |
| BaseConfig.GetOtherModuleConfig | src/BaseClass.py:95-99 | the config of the latest earlier step with that name; None when none matches; KeyError when a step checked first has no name |
| BaseConfig.FirstNamed | src/BaseClass.py:113-115 | the first module with that name; {} when none has it; KeyError at the first unnamed module met first |
| BaseConfig.GetModuleConfig | src/BaseClass.py:105-120 | with no run number, the module found by name (else {}); a run number inside the list gives that module, with Python's negative indexing; one past the end gives {} |
| BaseConfig.ByNameIsByPosition | src/BaseClass.py:105-120 | when the names are unique, looking up by name and looking up by position agree |
| BaseConfig.StepIdentifier | src/BaseClass.py:122-123 | the identifier ends with "_" and the class name |
| BaseConfig.ParseStepIdentifier | src/BaseClass.py:122-123 | the inverse of the identifier: whatever it accepts, it rebuilds |
| BaseConfig.RunNumTextHasNoUnderscore | src/BaseClass.py:123 | `str(run_num)` has no underscore, so the first "_" separates the two parts |
| BaseConfig.StepIdentifierRoundTrip | src/BaseClass.py:122-123 | parsing an identifier gives back the run number and class name |

## Left out

- Database sessions, SQLAlchemy, JSON (de)serialisation, pickling, logging,
  printing, progress bars and file I/O. Tables are sequences of rows; the
  getters are functions in `SimpleBackmapping.Env`.
- Transactions. Rows committed before an exception stay in the real tables.
  The model returns only the error and no partial table.
- WeightedDecision.ArgMax: when several classes tie, Python's choice depends
  on set iteration order. The contract accepts any maximal class.
- Analysis.Fuse: when a missing weight and a zero weight sum both occur in
  one box, set iteration order decides which error Python raises. The model
  reports the missing weight.
- Analysis.CondenseVotings: the merge loop runs with a `fuel` bound. A run
  that needs more passes is a `NotConverged` error, where the source would
  keep looping. The IoU threshold and weights are reals, not floats.
- Analysis.ToXminXmax: its contract only orders the corners. The exact
  round trip is stated for even sizes by `FinalStorage.CenterRoundTrip`.
- Floating-point rounding. Reals stand for Python floats; `int()` is
  truncation and `round()` is half to even.
- Text.ParseInt: accepts an optional sign followed by ASCII digits only.
  Python's `int(str)`, used on class keys at `WeightedDecision.py` lines 81
  and 91, also accepts surrounding whitespace, underscores between digits
  and non-ASCII digits. Keys built by `str(int)` contain none of these.
- WeightedDecision.DecideImage: lines 59-64 of `WeightedDecision.py` pass a
  fourth argument (`box_combine_method`) to `condense_votings`, which takes
  three parameters (`analysis_helper.py`, line 101). As written, the first
  image with backmappings therefore raises TypeError, and lines 69-104 never
  run. The model takes the condensed boxes `cv` as its input, as if that
  call took three arguments.
- `filter_small_boxes` on NumPy arrays (lines 18-20): array filtering is not
  modelled. Only the tuple and list branch is.
- `get_avg_image` and `get_greycount` in `ImageHandling.py` work on pixel
  arrays and are not part of this model.
- Timestamp parsing (`strptime` with "%Y:%m:%d %H:%M:%S"), reading EXIF and
  parsing YOLO box fields as floats. These are the parameters `parse`,
  `dateOf` and `boxOf`. In `CompareYolo`, a line's class is its first
  character, as in the source.
- `TimeBatching.Run` returns the batches as stamped entries. `Batching.Items`
  gives the image lists that are stored.
- SimpleBackmapping: lines 76-136 form a second copy of the segment path
  that cannot run (see Findings). Lines 145, 245 and 272 index the record
  or subscript the label (`src_images[0]`, `image["votings"]`) in ways
  SQLAlchemy objects do not support. The model follows the evident intent:
  the one source record, and the label's `votings`.
- SimpleBackmapping.InputEntries: line 56 reads `source_fullpath` of the
  input, which a detection row lacks. With a duplicate getter configured,
  every detection input raises AttributeError there. Without one, line 145
  is reached for a detection input too: it sits at the indentation of line
  64, outside the `elif` of line 67, and reads `src_images`, which only the
  label branch binds. Every label input raises before the loop moves on,
  so the first detection input raises UnboundLocalError there. The model
  takes the duplicates of a label only and runs lines 145-289 for labels
  only (`InputEntriesAsWritten` shows the code as written).
- SimpleBackmapping.LabelEntries: line 67 calls
  `SimpleLabelStorage.get_class()`, which that class does not define, so
  every label input raises AttributeError there. The model takes the test
  as meant (`InputEntriesAsWritten` shows the code as written).
- SimpleBackmapping: the storage classes in the repository are an older version than
  the one this module is written against. `SimpleEvalSplit` in
  src/Storage/SimpleLabelStorage.py has no `source_class`,
  `source_getter`, `image_fullpath` or `votings` column, although lines
  68-78 read them. `SegmentDataStorage` in src/Storage/DataStorage.py has
  no `get_class`. `BaseStorage` has no `get_image_by_id` or
  `get_image_by_fullpath`. The model assumes the newer API that the
  module calls: the image lookups are the parameters `imageById` and
  `imageByPath`. So the line-67 finding rests on a file that may not be
  the one in use, and by the same files the `get_class()` call inside the
  tuple at line 76 would raise AttributeError before `isinstance` raises
  TypeError.
- BackmappingStorage.Store: the "insert unless identical" test compares
  `json.dumps(votings)` text, and the model compares votings by value. A
  class map is a `map` here, with no key order, so two votings that differ
  only in key order are stored once by the model and twice by the source.
- SimpleBackmapping.SegmentDup: lines 183-184 read `source_dataclass` and
  `source_datagetter` of a detection record. Detection rows have
  `source_class` and `source_getter`, so these lines raise AttributeError.
  The model reads `sourceClass` and `sourceGetter`.
- SimpleBackmapping.DetectionPath: lines 228-229 read the same two missing
  attributes and raise AttributeError as written. The model reads
  `sourceClass` and `sourceGetter`.
- Analysis.IouSelf, Analysis.IouBounds, CompareYolo.IouSymmetricInUnit:
  "below 1" holds over the reals. In IEEE doubles, a union area of at least
  1 absorbs the `1e-16`, and the IoU of a box with itself is 1.0.
- SimpleBackmapping.DetectionDup: a duplicate whose record is not a
  detection raises AttributeError at once. The segment lookup, which could
  raise IndexError first, is skipped.
- SimpleBackmapping.DedupeStep: entries are kept as values, so
  `dict(tuple(d.items()))` is the identity. Python dict key order is not
  modelled.
- DuplicateStorage.MainSimilar returns the chosen image's path, where the
  source returns its database row. `get_all_images` of the duplicate and
  detection stores, and `get_cut_images` and `get_all_detections`, are plain
  table listings and are not modelled.
- CompareYolo: `glob`, the `--iou` and `--ext` arguments, and reading files.
  A file is given as its lines. The set iteration order over file names is
  any duplicate-free listing (`CompareYolo.ListNames`).
- BaseConfig: the config is assumed to have a "modules" list. A JSON null
  and a missing key are not distinguished. `get_new_context`, `run`,
  `get_sqlite_file`, `get_input_data` and `get_current_data_dir` are file
  and context handling.
- The patch cutting and drawing of `createSquaredLabels.py` (lines 76-158
  and 165-204) work on images and files. Only the box helpers and the
  outer-box de-duplication are modelled.

## Findings

| source | as written | input that shows it | evidently intended | confidence | as-written member | corrected member |
|---|---|---|---|---|---|---|
| src/Backmapping/SimpleBackmapping.py:76 | `isinstance((src_images, SegmentDataStorage.get_class()))` passes one tuple argument, so it raises TypeError for every label whose source count is one | a label whose single source record is a segment, with no duplicate getter | dispatch on the kind of the single source record, as lines 145-289 do | high for the one-argument `isinstance`, not executed; line 76 is reached only once line 67 is repaired (last row), and with the storage files in the repository `SegmentDataStorage.get_class()` would raise AttributeError first (see Left out) | SimpleBackmapping.LabelEntriesAsWritten, SimpleBackmapping.AsWrittenRaisesOnSegmentLabel | SimpleBackmapping.LabelEntries, SimpleBackmapping.SegmentLabelEntries |
| src/Backmapping/SimpleBackmapping.py:56, 145 | line 56 reads `image.source_fullpath`, which detection rows lack; line 145 sits outside the label branch and reads `src_images`, which only that branch binds | a detection input with a duplicate getter configured (AttributeError at line 56); a detection input without one (UnboundLocalError at line 145) | look duplicates up only for labels, which use them, and run lines 145-289 inside the label branch | high, not executed | SimpleBackmapping.InputEntriesAsWritten, SimpleBackmapping.AsWrittenRaisesOnInputs | SimpleBackmapping.InputEntries |
| src/Backmapping/SimpleBackmapping.py:67 | line 67 calls `SimpleLabelStorage.get_class()`, which the storage file in the repository does not define | a label input whose single source record is a segment | test for the label class | plausible, unverified, not executed: the storage file in the repository lacks the columns lines 68-78 read, so it may be older than the one in use (see Left out) | SimpleBackmapping.InputEntriesAsWritten, SimpleBackmapping.AsWrittenRaisesOnInputs | SimpleBackmapping.InputEntries, SimpleBackmapping.SegmentLabelEntries |
