/** The two merge routines of DetectMerger.h as imperative code: nested
    loops over rows, batches and detections, a per-row anchor list updated
    in place, and the mask paste into a zeroed raster. Each routine is
    proved equal to its specification in module SeamMerge. The output
    vector, which the source receives by reference and appends to, is
    threaded through: each routine takes its contents on entry and returns
    its contents on exit. */
module DetectMerger {
  import opened DataStructs
  import opened SeamMerge
  import opened MergeProperties

  /** Allocates a zeroed h x w raster, copies `first` into the region at
      column 0 and then `second` into the region at column first.cols. */
  method ExtendMask(first: Mask, second: Mask, w: nat, h: nat) returns (m: Mask)
    requires first.Shaped() && second.Shaped() && PasteFits(first, second, w, h)
    ensures m == Pasted(first, second, w, h)
  {
    var buf := new uint8[h, w]((i, j) => Black);
    // first.copyTo(region (0, 0, first.cols, first.rows))
    var i := 0;
    while i < first.rows
      invariant 0 <= i <= first.rows
      invariant forall r, c :: 0 <= r < h && 0 <= c < w ==>
        buf[r, c] == (if r < i && c < first.cols then first.px[r][c] else Black)
    {
      var j := 0;
      while j < first.cols
        invariant 0 <= j <= first.cols
        invariant forall r, c :: 0 <= r < h && 0 <= c < w ==>
          buf[r, c] == (if (r < i && c < first.cols) || (r == i && c < j) then first.px[r][c] else Black)
      {
        buf[i, j] := first.px[i][j];
        j := j + 1;
      }
      i := i + 1;
    }
    // second.copyTo(region (first.cols, 0, second.cols, second.rows))
    var offset := first.cols;
    i := 0;
    while i < second.rows
      invariant 0 <= i <= second.rows
      invariant forall r, c :: 0 <= r < h && 0 <= c < w ==>
        buf[r, c] == (if r < i && offset <= c < offset + second.cols then second.px[r][c - offset]
                      else if r < first.rows && c < first.cols then first.px[r][c]
                      else Black)
    {
      var j := 0;
      while j < second.cols
        invariant 0 <= j <= second.cols
        invariant forall r, c :: 0 <= r < h && 0 <= c < w ==>
          buf[r, c] == (if (r < i && offset <= c < offset + second.cols) || (r == i && offset <= c < offset + j)
                        then second.px[r][c - offset]
                        else if r < first.rows && c < first.cols then first.px[r][c]
                        else Black)
      {
        buf[i, offset + j] := second.px[i][j];
        j := j + 1;
      }
      i := i + 1;
    }
    m := Mask(h, w, seq(h, r requires 0 <= r < h reads buf => seq(w, c requires 0 <= c < w reads buf => buf[r, c])));
    var spec := Pasted(first, second, w, h);
    forall r | 0 <= r < h
      ensures m.px[r] == spec.px[r]
    {
      assert forall c :: 0 <= c < w ==> m.px[r][c] == buf[r, c] == PastedPixel(first, second, r, c) == spec.px[r][c];
    }
    assert m.px == spec.px;
  }

  /** Folds `seam` into `anchor` in place: the rectangle becomes the
      horizontal union (x first, then width, then height), then the mask is
      rebuilt at the new size. `ok` is false when the raster library would
      reject a copy region. */
  method AbsorbSeam(anchor: DetectResult, seam: DetectResult) returns (merged: DetectResult, ok: bool)
    requires WellFormed(anchor) && WellFormed(seam)
    ensures ok == Absorb(anchor, seam).Some?
    ensures ok ==> merged == Absorb(anchor, seam).value
  {
    merged := anchor;
    var newWidth := Max(merged.rect.x + merged.rect.width, seam.rect.x + seam.rect.width) - Min(merged.rect.x, seam.rect.x);
    merged := merged.(rect := merged.rect.(x := Min(merged.rect.x, seam.rect.x)));
    merged := merged.(rect := merged.rect.(width := newWidth));
    merged := merged.(rect := merged.rect.(height := Max(merged.rect.height, seam.rect.height)));
    if !PasteFits(merged.mask, seam.mask, merged.rect.width, merged.rect.height) {
      ok := false;
      return;
    }
    var extendedMask := ExtendMask(merged.mask, seam.mask, merged.rect.width, merged.rect.height);
    merged := merged.(mask := extendedMask);
    ok := true;
  }

  /** Scans the anchors in order; the first one the seam touches absorbs it
      and the scan stops; if none does, the seam is appended as a new anchor. */
  method AddSeam(anchors: seq<DetectResult>, seam: DetectResult) returns (result: seq<DetectResult>, merged: bool, ok: bool)
    requires AllWellFormed(anchors) && WellFormed(seam)
    ensures merged <==> FirstMatch(anchors, seam) < |anchors|
    ensures ok <==> AddToAnchors(anchors, seam).Some?
    ensures ok ==> result == AddToAnchors(anchors, seam).value
  {
    result := anchors;
    merged, ok := false, true;
    var j := 0;
    while j < |result|
      invariant 0 <= j <= |result| && result == anchors
      invariant forall t :: 0 <= t < j ==> !Touches(anchors[t], seam)
    {
      if Touches(result[j], seam) {
        assert FirstMatch(anchors, seam) == j;
        var absorbed;
        absorbed, ok := AbsorbSeam(result[j], seam);
        result := result[j := absorbed];
        merged := true;
        break;
      }
      j := j + 1;
    }
    if !merged {
      result := result + [seam];
    }
  }

  /** The innermost loop of the seam merger: the detections of one batch
      visited in order, from the output, anchor list and merge count the
      earlier batches of the row left. */
  method FoldSeamsOfBatch(detects: seq<DetectResult>, out0: seq<DetectResult>, anchors0: seq<DetectResult>, ghost merges0: nat)
    returns (out: seq<DetectResult>, mergedSeams: seq<DetectResult>, ok: bool, ghost merges: nat)
    requires AllWellFormed(anchors0) && AllWellFormed(detects)
    ensures AllWellFormed(mergedSeams)
    ensures var s := FoldRow(RowState(out0, anchors0, merges0, true), detects);
      out == s.out && ok == s.ok && (ok ==> mergedSeams == s.anchors && merges == s.merges)
  {
    ghost var start := RowState(out0, anchors0, merges0, true);
    out, mergedSeams, ok, merges := out0, anchors0, true, merges0;
    assert detects[..0] == [];
    var k := 0;
    while k < |detects|
      invariant 0 <= k <= |detects|
      invariant AllWellFormed(mergedSeams)
      invariant FoldRow(start, detects[..k]) == RowState(out, mergedSeams, merges, true)
    {
      var defect := detects[k];
      assert detects[..k + 1] == detects[..k] + [defect];
      FoldRowSnoc(start, detects[..k], defect);
      if defect.klass == SeamClass {
        var anchors, merged, fits := AddSeam(mergedSeams, defect);
        if !fits {
          FoldRowPrefixFailed(start, detects, k + 1);
          ok := false;
          return;
        }
        mergedSeams := anchors;
        if merged {
          merges := merges + 1;
        }
      } else {
        out := out + [defect];
      }
      k := k + 1;
    }
    assert detects[..k] == detects;
  }

  /** The body of the seam merger's row loop up to the flush: every
      detection of the row's batches visited in order against a fresh anchor
      list. Returns the output so far, the anchor list and whether every
      mask paste was accepted. */
  method FoldSeamsOfRow(batchesRow: seq<BatchResult>, resultDetects: seq<DetectResult>, ghost merges0: nat)
    returns (out: seq<DetectResult>, mergedSeams: seq<DetectResult>, ok: bool, ghost merges: nat)
    requires RowWellFormed(batchesRow)
    ensures (RowDetectsWellFormed(batchesRow);
      var s := FoldRow(RowState(resultDetects, [], merges0, true), RowDetects(batchesRow));
      out == s.out && ok == s.ok && (ok ==> mergedSeams == s.anchors && merges == s.merges))
  {
    out, mergedSeams, ok, merges := resultDetects, [], true, merges0;
    ghost var start := RowState(resultDetects, [], merges0, true);
    RowDetectsWellFormed(batchesRow[..0]);
    var b := 0;
    while b < |batchesRow|
      invariant 0 <= b <= |batchesRow|
      invariant AllWellFormed(mergedSeams) && AllWellFormed(RowDetects(batchesRow[..b]))
      invariant FoldRow(start, RowDetects(batchesRow[..b])) == RowState(out, mergedSeams, merges, true)
    {
      var detects := batchesRow[b].detects;
      assert AllWellFormed(detects);
      ghost var done := RowDetects(batchesRow[..b]);
      RowDetectsSnoc(batchesRow, b);
      FoldRowAppend(start, done, detects);
      RowDetectsWellFormed(batchesRow[..b + 1]);
      out, mergedSeams, ok, merges := FoldSeamsOfBatch(detects, out, mergedSeams, merges);
      if !ok {
        RowPrefixFailed(start, batchesRow, b + 1);
        return;
      }
      b := b + 1;
    }
    assert batchesRow[..b] == batchesRow;
  }

  /** The seam merger: non-seam detections go straight to the output; seams
      are folded into the current row's anchor list, which is appended to
      the output at the end of each row. `ok` is false when a mask paste
      was rejected; `out` is then the output as it stood at that moment. */
  method MergeDefectsMy(batchesDetects: seq<seq<BatchResult>>, resultDetects: seq<DetectResult>)
    returns (out: seq<DetectResult>, ok: bool)
    requires GridWellFormed(batchesDetects)
    ensures out == MergeGrid(resultDetects, batchesDetects).out
    ensures ok == MergeGrid(resultDetects, batchesDetects).ok
  {
    out, ok := resultDetects, true;
    ghost var merges: nat := 0;
    var i := 0;
    while i < |batchesDetects|
      invariant 0 <= i <= |batchesDetects|
      invariant MergeGrid(resultDetects, batchesDetects[..i]) == Run(out, merges, true)
    {
      var batchesRow := batchesDetects[i];
      assert RowWellFormed(batchesRow);
      assert batchesDetects[..i + 1][..i] == batchesDetects[..i];
      var mergedSeams;
      out, mergedSeams, ok, merges := FoldSeamsOfRow(batchesRow, out, merges);
      if !ok {
        MergeGridFailed(resultDetects, batchesDetects, i + 1);
        return;
      }
      out := out + mergedSeams;
      i := i + 1;
    }
    assert batchesDetects[..i] == batchesDetects;
  }

  /** The pass-through merger: every detection is appended to the output,
      row by row, batch by batch, in list order. */
  method MergeDefects(batchesDetects: seq<seq<BatchResult>>, resultDetects: seq<DetectResult>)
    returns (out: seq<DetectResult>)
    ensures out == resultDetects + GridDetects(batchesDetects)
  {
    out := resultDetects;
    var i := 0;
    while i < |batchesDetects|
      invariant 0 <= i <= |batchesDetects|
      invariant out == resultDetects + GridDetects(batchesDetects[..i])
    {
      var batchesRow := batchesDetects[i];
      ghost var rowStart := out;
      var b := 0;
      while b < |batchesRow|
        invariant 0 <= b <= |batchesRow|
        invariant out == rowStart + RowDetects(batchesRow[..b])
      {
        var detects := batchesRow[b].detects;
        ghost var batchStart := out;
        var k := 0;
        while k < |detects|
          invariant 0 <= k <= |detects|
          invariant out == batchStart + detects[..k]
        {
          out := out + [detects[k]];
          assert detects[..k + 1] == detects[..k] + [detects[k]];
          k := k + 1;
        }
        assert detects[..k] == detects;
        RowDetectsSnoc(batchesRow, b);
        b := b + 1;
      }
      assert batchesRow[..b] == batchesRow;
      GridDetectsSnoc(batchesDetects, i);
      i := i + 1;
    }
    assert batchesDetects[..i] == batchesDetects;
  }
}
