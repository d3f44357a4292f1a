# Tiled defect merging, modelled in Dafny

A fabric-inspection pipeline runs a defect detector on each tile
("batch") of a large image separately. The batches form a grid of rows
and columns. The merging stage turns the per-batch detections into one
list of detections for the whole image. Each detection carries:

- a rectangle;
- a confidence (`prob`);
- a binary mask the size of the rectangle;
- an integer class (`klass`).

The model covers three source files:

- **DataStructs.h**: the enumeration of defect kinds, plus the detection
  and batch records and their documented invariants.
  Modelled in module `DataStructs` (`data_structs.dfy`).
- **DetectMerger.h**: the two merge routines.
  - `mergeDefects` appends every detection to the output, row by row,
    batch by batch, in list order.
  - `mergeDefectsMy` stitches seams. A detection of class 1 is a seam.
    Within a row, a seam is absorbed by the first earlier seam ("anchor")
    it touches. Touching means the same top row and a left/right edge
    gap of at most 10 pixels. Absorbing widens the anchor's rectangle to
    the horizontal union and rebuilds its mask. A seam that touches no
    anchor becomes a new anchor. Every other detection goes straight to
    the output. At the end of each row, the row's anchors are appended to
    the output.

  The routines are specified as functions in module `SeamMerge`
  (`seam_merge.dfy`). Their guarantees are proved in `MergeProperties`
  (`merge_properties.dfy`). The imperative routines in `DetectMerger`
  (`detect_merger.dfy`) are loops over the same data and are proved
  equal to the specification functions.
  - The per-row anchor list is a local sequence, updated in place.
  - The mask paste writes into a zeroed two-dimensional array.
  - The output vector is taken by reference in the source. Here its
    contents on entry are a parameter and its contents on exit the
    result.
- **main.cpp:10-38**: construction of the batch grid. Modelled in module
  `TileGrid` (`tile_grid.dfy`).

The mask paste can ask the raster library for a copy region outside the
new raster. The library rejects such a region with an exception, which
ends the merge. The model gives the same outcome:

- `ok == false` is returned;
- the output keeps what had been appended up to that moment;
- every appended detection stays, because the output is held by
  reference.

Inputs must be well-formed. Every mask must have its rectangle's size
(DataStructs.h:44-45), and every width and height must be non-negative.
Under that assumption, the only region that can be rejected is the
incoming seam's. It is rejected exactly when the two rectangles overlap
horizontally (`SeamMerge.Absorb`).

DetectMerger.h has no class-id classifier. It has a single merge rule,
with no vertical matching and no grouping across rows, and it does not
combine confidences:

- the seam test is the raw comparison `klass == 1` (not a
  `DefectType`);
- matching is horizontal only, within one row;
- the merged detection keeps the anchor's confidence and class.

The two mask-paste defects listed under "Findings" live in module
`MaskFindings` (`mask_findings.dfy`). That module also holds the
corrected absorption and the corrected anchor update that uses it.

## Model

| member | source | states |
|---|---|---|
| DataStructs.Ordinal | DataStructs.h:8-33 | every defect kind has an underlying value below 24, and the value 23 belongs to `Default` alone, the last enumerator |
| DataStructs.FromOrdinal | DataStructs.h:8-33 | an enumerator exists for exactly the values 0 to 23 |
| DataStructs.WellFormed | DataStructs.h:38-45 | the shape invariant of a detection: non-negative width and height, and a mask of exactly the rectangle's rows and columns |
| DataStructs.MaskCoversRect | DataStructs.h:38-45 | in a well-formed detection, an image pixel has a mask pixel, at its offset from the top-left corner, exactly when it lies inside the rectangle |
| DataStructs.Valid | DataStructs.h:42-46 | the full documented invariant: well-formed, confidence between 0.0 and 1.0, and every mask pixel white or black |
| DataStructs.OrdinalRoundTrip | DataStructs.h:8-33 | enumerators and the values 0..23 are in one-to-one correspondence |
| SeamMerge.RowDetects | DetectMerger.h:91-94 | the detections of a row in visiting order: batch by batch, each batch's list in order |
| SeamMerge.GridDetects | DetectMerger.h:149-153 | the detections of a grid in visiting order: row by row |
| MergeProperties.RowDetectsSplit | DetectMerger.h:91-94 | visiting a row is visiting its first b batches and then the rest |
| MergeProperties.RowDetectsSnoc | DetectMerger.h:91-94 | visiting one more batch appends exactly its detection list |
| MergeProperties.GridDetectsSnoc | DetectMerger.h:86-94 | visiting one more row appends exactly that row's detections |
| SeamMerge.RowDetectsWellFormed | DetectMerger.h:91-94 | visiting a row batch by batch yields only well-formed detections when the batches hold only such |
| SeamMerge.RowDetectsValid | DetectMerger.h:91-94 | visiting a row batch by batch yields only valid detections when the batches hold only such |
| SeamMerge.GridDetectsWellFormed | DetectMerger.h:86-94 | the same for the whole grid, row by row |
| SeamMerge.GridDetectsValid | DetectMerger.h:86-94 | the same for validity over the whole grid |
| SeamMerge.Touches | DetectMerger.h:102-104 | the match test: same top row, and one rectangle's left edge within 10 pixels of the other's right edge |
| SeamMerge.TouchesGap | DetectMerger.h:102-104 | touching rectangles of non-negative width share their top row and are at most 10 pixels apart horizontally, an overlap counting as a negative gap |
| SeamMerge.FirstMatch | DetectMerger.h:100-122 | the index of the first anchor in insertion order that the seam touches (same y, one edge gap at most 10); no earlier anchor touches; the list length when none does |
| SeamMerge.MergedRect | DetectMerger.h:107-110 | the merged rectangle's x is the smaller x, its right edge the larger right edge, its y the anchor's and its height the larger height |
| SeamMerge.Pasted | DetectMerger.h:113 | the rebuilt mask is exactly w columns by h rows |
| SeamMerge.PasteFits | DetectMerger.h:115-116 | both copy regions, the anchor's mask at (0, 0) and the incoming mask at (oldWidth, 0), pass the raster library's region test |
| SeamMerge.Absorb | DetectMerger.h:107-117 | absorption succeeds exactly when the rectangles do not overlap horizontally; the result is well-formed, has the merged rectangle and keeps the anchor's prob and klass |
| SeamMerge.AddToAnchors | DetectMerger.h:98-127 | the anchor list stays well-formed and all-seams; it keeps its length after a match and grows by one otherwise |
| SeamMerge.Step | DetectMerger.h:96-132 | visiting one detection only appends to the output, never lowers the merge count, keeps the anchors well-formed; after a failure nothing changes |
| SeamMerge.FoldRow | DetectMerger.h:91-134 | the same for a whole sequence of detections |
| SeamMerge.MergeRow | DetectMerger.h:86-140 | each row starts a fresh anchor list and flushes it after the row's output; the earlier output is only extended and the merge count never drops |
| SeamMerge.MergeGrid | DetectMerger.h:86-141 | the output on entry is never modified, only extended |
| MergeProperties.PastedLayout | DetectMerger.h:113-117 | the merged mask holds the old anchor mask at columns [0, oldWidth), the incoming mask from column oldWidth, and black everywhere else |
| MergeProperties.AbsorbValid | DetectMerger.h:107-117 | absorbing a valid seam into a valid anchor yields a valid detection: mask of the rectangle's size, binary, prob in [0, 1] |
| MergeProperties.AbsorbCovers | DetectMerger.h:107-110 | the merged rectangle contains both inputs horizontally, is as tall as each, and its width is the two widths plus the gap between them |
| MergeProperties.AbuttingSeams | DetectMerger.h:102-117 | two well-formed 500-pixel seams meeting at x = 500 touch, the paste succeeds, and the result spans (0, 100, 1000, 50) |
| MergeProperties.ToleranceBoundary | DetectMerger.h:98-104 | a 10-pixel gap still touches, an 11-pixel gap does not |
| MergeProperties.SeamStep | DetectMerger.h:100-127 | a seam never reaches the output directly; with no touching anchor it is appended unchanged as the last anchor; otherwise the first touching anchor alone absorbs it, and every other anchor is unchanged |
| MergeProperties.FoldRowFailed | DetectMerger.h:115-116 | once a paste was rejected, visiting further detections changes nothing |
| MergeProperties.FoldRowPrefixFailed | DetectMerger.h:115-116 | a row visit that failed within a prefix of the detections has the same result on the whole list |
| MergeProperties.RowPrefixFailed | DetectMerger.h:91-134 | a row visit that failed within its first batches has the same result on the whole row |
| MergeProperties.MergeGridFailed | DetectMerger.h:86-141 | a run that failed on a prefix of the rows has the same result on the whole grid |
| MergeProperties.StepCounts | DetectMerger.h:96-132 | one detection visited: a non-seam is appended to the output, and a seam either becomes an anchor or is counted as absorbed |
| MergeProperties.FoldRowCounts | DetectMerger.h:91-134 | within a row, non-seams reach the output in order, and anchors plus absorbed seams equal the seams visited |
| MergeProperties.FoldRowOut | DetectMerger.h:129-132 | within a row, the output is the initial output followed by exactly the visited non-seams, unchanged and in visiting order |
| MergeProperties.MergeRowLayout | DetectMerger.h:86-88 | one row's output is the earlier output unchanged, then the row's non-seams in order, then that row's anchors, all seams, which with the absorbed seams account for every seam of that row |
| MergeProperties.MergeRowCounts | DetectMerger.h:136-140 | after the row's anchors are flushed, the non-seams and the seam count of the output account for the row's detections |
| MergeProperties.MergeGridCounts | DetectMerger.h:82-142 | over the grid, the output's non-seams are the initial ones followed by the input's in traversal order, and output seams plus absorbed seams equal initial plus input seams |
| MergeProperties.Conservation | DetectMerger.h:119-139 | the output grows by the number of input detections minus the number of absorbed seams |
| MergeProperties.FoldRowValid | DetectMerger.h:96-132 | valid inputs give a valid output and valid anchors within a row |
| MergeProperties.MergeGridValid | DetectMerger.h:82-142 | given valid inputs, every detection of the merged output satisfies the documented invariant |
| MergeProperties.FoldRowNoSeams | DetectMerger.h:129-132 | a row without seams is copied to the output unchanged |
| MergeProperties.NoSeamsPassThrough | DetectMerger.h:82-159 | on a grid without seams, the seam merger's output equals the pass-through merger's and nothing is merged |
| DetectMerger.ExtendMask | DetectMerger.h:113-117 | the zeroed raster after both copies is exactly the pasted mask |
| DetectMerger.AbsorbSeam | DetectMerger.h:107-117 | updating x, width and height in place and pasting the masks succeeds exactly when `Absorb` does, with the same detection |
| DetectMerger.AddSeam | DetectMerger.h:98-127 | the scan with the `merged` flag and `break` reports a merge exactly when some anchor touches, and yields the anchor list `AddToAnchors` specifies, failing exactly when it does |
| DetectMerger.FoldSeamsOfBatch | DetectMerger.h:94-133 | the loop over one batch's detections, from a given output and anchor list, gives the output, anchor list, merge count and failure of `FoldRow` on that batch |
| DetectMerger.FoldSeamsOfRow | DetectMerger.h:88-134 | the nested batch and detection loops of one row give the output, anchor list, merge count and failure of `FoldRow` |
| DetectMerger.MergeDefectsMy | DetectMerger.h:82-142 | the output and success of the seam merger are those of `MergeGrid` |
| DetectMerger.MergeDefects | DetectMerger.h:144-159 | the output is the input output followed by every detection in row, batch and list order |
| TileGrid.CeilDiv | main.cpp:14-15 | quotient plus a remainder flag is the least n with total <= n * part |
| TileGrid.TileRect | main.cpp:29-32 | batch [i][j] has origin (j * batchW, i * batchH), and its right and bottom edges are the nominal ones clamped to the image's |
| TileGrid.BuildGrid | main.cpp:18-37 | the grid has CeilDiv(imageH, batchH) rows of CeilDiv(imageW, batchW) batches; batch [i][j] has origin (j * batchW, i * batchH), width and height clamped to the image, and no detections |
| TileGrid.TileInsideImage | main.cpp:29-32 | every batch starts inside the image, is no larger than nominal, and ends at or before the image's edges, with positive width and height |
| TileGrid.TilesAbut | main.cpp:29-32 | neighbouring batches abut horizontally and vertically, and the last column and row end exactly at the image's edges |
| TileGrid.TilesCover | main.cpp:24-32 | every image pixel lies in the batch indexed by its coordinates divided by the batch size |
| TileGrid.ProgramGrid | main.cpp:11-15 | the program's 1200 x 1000 image in 500 x 500 batches gives 2 rows of 3, the last column 200 pixels wide |
| MaskFindings.AsWrittenMisplacesGap | DetectMerger.h:114-116 | with a seam 4 pixels right of the anchor, the seam's defect pixel is black at its image position in the merged mask |
| MaskFindings.AsWrittenMisplacesLeftSeam | DetectMerger.h:108-116 | with a seam to the left of the anchor, the anchor's defect pixel is black at its image position in the merged mask |
| MaskFindings.AsWrittenRejectsOverlap | DetectMerger.h:102-116 | two seams that overlap by 5 pixels touch, yet the paste region is rejected |
| MaskFindings.AbsorbAligned | DetectMerger.h:107-117 | the corrected absorption has the merged rectangle, a mask of its size, the anchor's prob and klass, and keeps validity |
| MaskFindings.AlignedKeepsPixels | DetectMerger.h:112-117 | in the corrected mask a pixel is a defect pixel exactly when it is one in either input at the same image position |
| MaskFindings.AlignedMergesOverlap | DetectMerger.h:102-117 | on the overlapping pair the code rejects, the corrected absorption gives one 15-pixel seam whose every pixel is a defect pixel |
| MaskFindings.AlignedAgreesWhenAbutting | DetectMerger.h:113-117 | for valid masks and a seam starting at the anchor's right edge, the code and the corrected absorption agree |
| MaskFindings.AddToAnchorsAligned | DetectMerger.h:98-127 | the corrected anchor update keeps first-match semantics, never fails, and keeps the list well-formed and valid |
| MaskFindings.AlignedAnchorsAgree | DetectMerger.h:98-127 | when the matched anchor's right edge is the seam's left edge, the as-written and the corrected anchor updates agree |

## Left out

- Integer width: `int` coordinates are unbounded here. Overflow of `x + width` in 32-bit arithmetic is not modelled.
- `prob` is a `float` in the source and a `real` here. It is only carried and compared with the documented bounds.
- The raster library is reduced to three things: a mask as rows of 8-bit pixels, a copy into a rectangular region, and the rejection of a region that leaves the raster. Type conversion and reallocation inside `copyTo` are not modelled.
- The rejected region is modelled as an error result (`ok == false`), not as a C++ exception.
- Detections with masks whose size differs from their rectangles are excluded by a precondition. The source documents this invariant (DataStructs.h:44-45), but does not check it.
- The commented-out earlier merger (DetectMerger.h:19-79) is dead code.
- The call of `mergeDefects` in main.cpp:40-45 passes no detections and discards the result.
- Moves, pass-by-value copies, and `std::list` versus `std::vector` are all sequences here.
- No classifier, no other merge rule and no grouping across rows exist in DetectMerger.h, so none is modelled.
- MergeProperties.Conservation: states the counts only. It does not trace each output seam back to the particular input seams it absorbed.

## Findings

| source | as written | input that shows it | evidently intended | confidence | as-written member | corrected member |
|---|---|---|---|---|---|---|
| DetectMerger.h:114-116 | the incoming mask is pasted at column oldWidth, and the anchor's mask at column 0, whatever the rectangles' relative positions | anchor at x = 0 and seam at x = 5, both 1 x 1 white; also a seam at x = 9 left of an anchor at x = 10 | each mask pasted at its own offset inside the union rectangle | not executed | MaskFindings.AsWrittenMisplacesGap, MaskFindings.AsWrittenMisplacesLeftSeam | MaskFindings.AbsorbAligned, MaskFindings.AlignedKeepsPixels, MaskFindings.AddToAnchorsAligned |
| DetectMerger.h:102-116 | the tolerance admits seams that overlap the anchor by up to 10 pixels, but then the paste region ends outside the new raster and the library rejects it | anchor Rect(0, 0, 10, 1) and seam Rect(5, 0, 10, 1) | overlapping seams merged, their pixels combined | not executed | MaskFindings.AsWrittenRejectsOverlap | MaskFindings.AlignedMergesOverlap, MaskFindings.AddToAnchorsAligned |

The merge routines model the code as written, so they keep both defects.
The corrected anchor update agrees with them whenever the seam starts
exactly at the anchor's right edge (`MaskFindings.AlignedAnchorsAgree`).
That is the case the code handles correctly.
