/** The seam merge of DetectMerger.h stated as functions: the matching
    test, the absorption of one seam into an anchor (rectangle union and
    mask paste), the per-row fold over an anchor list and the whole-grid
    traversal. The imperative routines in module DetectMerger are proved
    equal to these functions; the lemmas here state what they guarantee. */
module SeamMerge {
  import opened DataStructs

  /** The raw class id the merger treats as a seam. */
  const SeamClass: int := 1
  /** Horizontal gap, in pixels, still treated as adjacency. */
  const Tolerance: int := 10

  predicate IsSeam(d: DetectResult) { d.klass == SeamClass }

  predicate AllSeams(ds: seq<DetectResult>)
  {
    forall k :: 0 <= k < |ds| ==> IsSeam(ds[k])
  }

  // ---------------------------------------------------------------------------
  // Traversal order of the grid

  /** The detections of a row of batches, batch by batch, each batch's list in order. */
  function RowDetects(row: seq<BatchResult>): seq<DetectResult>
  {
    if row == [] then [] else RowDetects(row[..|row| - 1]) + row[|row| - 1].detects
  }

  /** The detections of a grid, row by row. */
  function GridDetects(grid: seq<seq<BatchResult>>): seq<DetectResult>
  {
    if grid == [] then [] else GridDetects(grid[..|grid| - 1]) + RowDetects(grid[|grid| - 1])
  }

  /** Visiting a row yields only well-formed detections when its batches hold only such. */
  lemma {:induction false} RowDetectsWellFormed(row: seq<BatchResult>)
    requires RowWellFormed(row)
    ensures AllWellFormed(RowDetects(row))
    decreases |row|
  {
    if row != [] {
      RowDetectsWellFormed(row[..|row| - 1]);
    }
  }

  /** Visiting a row yields only valid detections when its batches hold only such. */
  lemma {:induction false} RowDetectsValid(row: seq<BatchResult>)
    requires RowValid(row)
    ensures AllValid(RowDetects(row))
    decreases |row|
  {
    if row != [] {
      RowDetectsValid(row[..|row| - 1]);
    }
  }

  /** Visiting a grid yields only well-formed detections when its batches hold only such. */
  lemma {:induction false} GridDetectsWellFormed(grid: seq<seq<BatchResult>>)
    requires GridWellFormed(grid)
    ensures AllWellFormed(GridDetects(grid))
    decreases |grid|
  {
    if grid != [] {
      GridDetectsWellFormed(grid[..|grid| - 1]);
      RowDetectsWellFormed(grid[|grid| - 1]);
    }
  }

  /** Visiting a grid yields only valid detections when its batches hold only such. */
  lemma {:induction false} GridDetectsValid(grid: seq<seq<BatchResult>>)
    requires GridValid(grid)
    ensures AllValid(GridDetects(grid))
    decreases |grid|
  {
    if grid != [] {
      GridDetectsValid(grid[..|grid| - 1]);
      RowDetectsValid(grid[|grid| - 1]);
    }
  }

  // ---------------------------------------------------------------------------
  // Matching an incoming seam against an anchor

  /** The merge condition: the same top row, and one rectangle's left edge
      lies within Tolerance pixels of the other's right edge. */
  predicate Touches(anchor: DetectResult, seam: DetectResult)
  {
    seam.rect.y == anchor.rect.y &&
    (Abs(seam.rect.x - anchor.rect.Right()) <= Tolerance ||
     Abs(anchor.rect.x - seam.rect.Right()) <= Tolerance)
  }

  /** Touching rectangles share their top row and are at most Tolerance
      pixels apart horizontally (an overlap counts as a negative gap). */
  lemma TouchesGap(anchor: DetectResult, seam: DetectResult)
    requires anchor.rect.width >= 0 && seam.rect.width >= 0 && Touches(anchor, seam)
    ensures anchor.rect.y == seam.rect.y
    ensures Max(anchor.rect.x, seam.rect.x) - Min(anchor.rect.Right(), seam.rect.Right()) <= Tolerance
  {
  }

  /** The position of the first anchor the seam touches, or |anchors| if none. */
  function FirstMatch(anchors: seq<DetectResult>, seam: DetectResult): (k: nat)
    ensures k <= |anchors|
    ensures k < |anchors| ==> Touches(anchors[k], seam)
    ensures forall t :: 0 <= t < k ==> !Touches(anchors[t], seam)
  {
    if anchors == [] then 0
    else if Touches(anchors[0], seam) then 0
    else 1 + FirstMatch(anchors[1..], seam)
  }

  // ---------------------------------------------------------------------------
  // Absorbing a seam into an anchor

  /** The anchor's rectangle after absorbing the seam: the horizontal
      union at the anchor's row, as tall as the taller of the two. */
  function MergedRect(a: Rect, s: Rect): (r: Rect)
    ensures r.x == Min(a.x, s.x) && r.Right() == Max(a.Right(), s.Right())
    ensures r.y == a.y && r.height == Max(a.height, s.height)
  {
    var newWidth := Max(a.Right(), s.Right()) - Min(a.x, s.x);
    Rect(Min(a.x, s.x), a.y, newWidth, Max(a.height, s.height))
  }

  /** Pixel (i, j) of a zeroed raster into which `first` was copied at
      column 0 and then `second` at column first.cols. */
  function PastedPixel(first: Mask, second: Mask, i: int, j: int): uint8
    requires first.Shaped() && second.Shaped()
  {
    if 0 <= i < first.rows && 0 <= j < first.cols then first.px[i][j]
    else if 0 <= i < second.rows && first.cols <= j < first.cols + second.cols then second.px[i][j - first.cols]
    else Black
  }

  /** The w x h raster holding `first` at column 0 and `second` at column first.cols. */
  function Pasted(first: Mask, second: Mask, w: nat, h: nat): (m: Mask)
    requires first.Shaped() && second.Shaped()
    ensures m.Shaped() && m.rows == h && m.cols == w
  {
    Mask(h, w, seq(h, i => seq(w, j => PastedPixel(first, second, i, j))))
  }

  /** The raster library's test of a region (x, y, width, height) of a
      cols x rows raster: non-negative origin and extents, inside the raster. */
  predicate RegionInside(x: int, y: int, width: int, height: int, cols: int, rows: int)
  {
    0 <= x && 0 <= width && x + width <= cols && 0 <= y && 0 <= height && y + height <= rows
  }

  /** Both copy regions, (0, 0, first.cols, first.rows) and
      (first.cols, 0, second.cols, second.rows), pass the region test of a
      w x h raster. */
  predicate PasteFits(first: Mask, second: Mask, w: int, h: int)
  {
    RegionInside(0, 0, first.cols, first.rows, w, h) &&
    RegionInside(first.cols, 0, second.cols, second.rows, w, h)
  }

  /** The anchor after absorbing the seam, or None when a copy region falls
      outside the new raster (the raster library rejects that region). The
      anchor keeps its confidence and class; the seam's are dropped. */
  function Absorb(anchor: DetectResult, seam: DetectResult): (r: Option<DetectResult>)
    requires WellFormed(anchor) && WellFormed(seam)
    ensures r.Some? <==> Min(anchor.rect.Right(), seam.rect.Right()) <= Max(anchor.rect.x, seam.rect.x)
    ensures r.Some? ==> WellFormed(r.value) && r.value.rect == MergedRect(anchor.rect, seam.rect)
    ensures r.Some? ==> r.value.prob == anchor.prob && r.value.klass == anchor.klass
  {
    var rect := MergedRect(anchor.rect, seam.rect);
    if PasteFits(anchor.mask, seam.mask, rect.width, rect.height) then
      Some(DetectResult(rect, anchor.prob, Pasted(anchor.mask, seam.mask, rect.width, rect.height), anchor.klass))
    else
      None
  }

  // ---------------------------------------------------------------------------
  // The per-row fold

  /** The merger's state while a row is processed: the output so far, the
      row's anchor list, the number of seams absorbed so far, and whether
      the run is still going (false once a copy region was rejected; the
      output then stays as it was at that moment). */
  datatype RowState = RowState(out: seq<DetectResult>, anchors: seq<DetectResult>, merges: nat, ok: bool)

  /** The anchor list after a seam is folded in: the first touching anchor
      absorbs it, or it is appended when none touches; None when the
      absorbing paste is rejected. */
  function AddToAnchors(anchors: seq<DetectResult>, seam: DetectResult): (r: Option<seq<DetectResult>>)
    requires AllWellFormed(anchors) && WellFormed(seam)
    ensures r.Some? ==> AllWellFormed(r.value)
    ensures r.Some? ==> |r.value| == if FirstMatch(anchors, seam) < |anchors| then |anchors| else |anchors| + 1
    ensures r.Some? && IsSeam(seam) && AllSeams(anchors) ==> AllSeams(r.value)
  {
    var k := FirstMatch(anchors, seam);
    if k == |anchors| then Some(anchors + [seam])
    else
      match Absorb(anchors[k], seam)
      case None => None
      case Some(m) => Some(anchors[k := m])
  }

  /** One detection visited. */
  function Step(s: RowState, d: DetectResult): (r: RowState)
    requires AllWellFormed(s.anchors) && WellFormed(d)
    ensures AllWellFormed(r.anchors)
    ensures s.out <= r.out && r.merges >= s.merges
    ensures AllSeams(s.anchors) ==> AllSeams(r.anchors)
    ensures !s.ok ==> r == s
  {
    if !s.ok then s
    else if d.klass != SeamClass then s.(out := s.out + [d])
    else
      match AddToAnchors(s.anchors, d)
      case None => s.(ok := false)
      case Some(a) =>
        s.(anchors := a, merges := if FirstMatch(s.anchors, d) < |s.anchors| then s.merges + 1 else s.merges)
  }

  /** The detections `ds` visited in order. */
  function FoldRow(s: RowState, ds: seq<DetectResult>): (r: RowState)
    requires AllWellFormed(s.anchors) && AllWellFormed(ds)
    ensures AllWellFormed(r.anchors)
    ensures s.out <= r.out && r.merges >= s.merges
    ensures AllSeams(s.anchors) ==> AllSeams(r.anchors)
    decreases |ds|
  {
    if ds == [] then s
    else Step(FoldRow(s, ds[..|ds| - 1]), ds[|ds| - 1])
  }

  // ---------------------------------------------------------------------------
  // The whole grid

  /** The result of a run: the output list, the number of absorbed seams,
      and whether the run completed. */
  datatype Run = Run(out: seq<DetectResult>, merges: nat, ok: bool)

  /** One row: a fresh anchor list, the row's detections visited, then the
      anchors appended to the output. */
  function MergeRow(run: Run, row: seq<BatchResult>): (r: Run)
    requires RowWellFormed(row)
    ensures run.out <= r.out && r.merges >= run.merges
  {
    RowDetectsWellFormed(row);
    var s := FoldRow(RowState(run.out, [], run.merges, true), RowDetects(row));
    if s.ok then Run(s.out + s.anchors, s.merges, true) else Run(s.out, s.merges, false)
  }

  /** All rows, top to bottom, appending to `out0`; a failed row ends the run. */
  function MergeGrid(out0: seq<DetectResult>, grid: seq<seq<BatchResult>>): (r: Run)
    requires GridWellFormed(grid)
    ensures out0 <= r.out
  {
    if grid == [] then Run(out0, 0, true)
    else
      var prev := MergeGrid(out0, grid[..|grid| - 1]);
      if prev.ok then MergeRow(prev, grid[|grid| - 1]) else prev
  }
}
