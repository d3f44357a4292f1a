/** Two defects of the seam merge's mask paste, each shown on a concrete
    input, and the evidently intended absorption: every mask pasted at its
    own offset inside the union rectangle, overlapping pixels combined. */
module MaskFindings {
  import opened DataStructs
  import opened SeamMerge

  /** Whether detection d marks image pixel (col, row) as defect. */
  predicate OnAt(d: DetectResult, col: int, row: int)
    requires WellFormed(d)
  {
    var i, j := row - d.rect.y, col - d.rect.x;
    0 <= i < d.mask.rows && 0 <= j < d.mask.cols && d.mask.px[i][j] != Black
  }

  /** Mask soundness of a merge: every defect pixel of either input is a
      defect pixel of the result at the same image position. */
  ghost predicate KeepsPixels(r: DetectResult, anchor: DetectResult, seam: DetectResult)
    requires WellFormed(r) && WellFormed(anchor) && WellFormed(seam)
  {
    forall col, row :: OnAt(anchor, col, row) || OnAt(seam, col, row) ==> OnAt(r, col, row)
  }

  // ---------------------------------------------------------------------------
  // As written

  /** The paste puts the incoming mask at column oldWidth whatever the gap:
      with a seam 4 pixels to the right of the anchor, the seam's defect
      pixel at image column 5 is black in the merged mask. */
  lemma AsWrittenMisplacesGap(anchor: DetectResult, seam: DetectResult)
    requires anchor == DetectResult(Rect(0, 0, 1, 1), 0.5, Mask(1, 1, [[White]]), 1)
    requires seam == DetectResult(Rect(5, 0, 1, 1), 0.5, Mask(1, 1, [[White]]), 1)
    ensures WellFormed(anchor) && WellFormed(seam) && Touches(anchor, seam)
    ensures Absorb(anchor, seam).Some? && OnAt(seam, 5, 0) && !OnAt(Absorb(anchor, seam).value, 5, 0)
  {
    assert WellFormed(anchor) && WellFormed(seam);
    var m := Absorb(anchor, seam).value.mask;
    assert m.px[0][5] == PastedPixel(anchor.mask, seam.mask, 0, 5) == Black;
  }

  /** The paste puts the anchor's mask at column 0 even when the seam lies
      to its left: the anchor's defect pixel at image column 10 is black in
      the merged mask. */
  lemma AsWrittenMisplacesLeftSeam(anchor: DetectResult, seam: DetectResult)
    requires anchor == DetectResult(Rect(10, 0, 1, 1), 0.5, Mask(1, 1, [[White]]), 1)
    requires seam == DetectResult(Rect(9, 0, 1, 1), 0.5, Mask(1, 1, [[Black]]), 1)
    ensures WellFormed(anchor) && WellFormed(seam) && Touches(anchor, seam)
    ensures Absorb(anchor, seam).Some? && OnAt(anchor, 10, 0) && !OnAt(Absorb(anchor, seam).value, 10, 0)
  {
    assert WellFormed(anchor) && WellFormed(seam);
    var m := Absorb(anchor, seam).value.mask;
    assert m.px[0][1] == PastedPixel(anchor.mask, seam.mask, 0, 1) == Black;
  }

  /** The tolerance also admits seams that overlap the anchor by up to 10
      pixels; their paste region then ends beyond the new raster and the
      merge is rejected instead of performed. */
  lemma AsWrittenRejectsOverlap(anchor: DetectResult, seam: DetectResult)
    requires anchor == DetectResult(Rect(0, 0, 10, 1), 0.5, Mask(1, 10, [seq(10, _ => White)]), 1)
    requires seam == DetectResult(Rect(5, 0, 10, 1), 0.5, Mask(1, 10, [seq(10, _ => White)]), 1)
    ensures WellFormed(anchor) && WellFormed(seam) && Touches(anchor, seam)
    ensures Absorb(anchor, seam).None?
  {
  }

  // ---------------------------------------------------------------------------
  // As intended

  /** Pixel (i, j) of the union raster whose top-left is image pixel (x, y). */
  function AlignedPixel(anchor: DetectResult, seam: DetectResult, x: int, y: int, i: int, j: int): uint8
    requires WellFormed(anchor) && WellFormed(seam)
  {
    if OnAt(anchor, x + j, y + i) || OnAt(seam, x + j, y + i) then White else Black
  }

  /** The anchor after absorbing the seam, each mask at its own offset
      inside the union rectangle and overlapping defect pixels kept. */
  function AbsorbAligned(anchor: DetectResult, seam: DetectResult): (r: DetectResult)
    requires WellFormed(anchor) && WellFormed(seam) && anchor.rect.y == seam.rect.y
    ensures Valid(anchor) ==> Valid(r)
    ensures WellFormed(r) && r.rect == MergedRect(anchor.rect, seam.rect)
    ensures r.prob == anchor.prob && r.klass == anchor.klass
  {
    var rect := MergedRect(anchor.rect, seam.rect);
    var px := seq(rect.height, i => seq(rect.width, j => AlignedPixel(anchor, seam, rect.x, rect.y, i, j)));
    var r := DetectResult(rect, anchor.prob, Mask(rect.height, rect.width, px), anchor.klass);
    assert r.mask.Binary() by {
      forall i, j | 0 <= i < rect.height && 0 <= j < rect.width
        ensures px[i][j] == Black || px[i][j] == White
      {
        assert px[i][j] == AlignedPixel(anchor, seam, rect.x, rect.y, i, j);
      }
    }
    r
  }

  /** Mask soundness of the intended merge, both ways: a pixel is a defect
      pixel of the result exactly when it is one of either input. */
  lemma AlignedKeepsPixels(anchor: DetectResult, seam: DetectResult)
    requires WellFormed(anchor) && WellFormed(seam) && anchor.rect.y == seam.rect.y
    ensures KeepsPixels(AbsorbAligned(anchor, seam), anchor, seam)
    ensures forall col, row :: OnAt(AbsorbAligned(anchor, seam), col, row) ==>
      OnAt(anchor, col, row) || OnAt(seam, col, row)
  {
    var r := AbsorbAligned(anchor, seam);
    forall col, row | OnAt(anchor, col, row) || OnAt(seam, col, row)
      ensures OnAt(r, col, row)
    {
      var i, j := row - r.rect.y, col - r.rect.x;
      assert r.mask.px[i][j] == AlignedPixel(anchor, seam, r.rect.x, r.rect.y, i, j);
    }
    forall col, row | OnAt(r, col, row)
      ensures OnAt(anchor, col, row) || OnAt(seam, col, row)
    {
      var i, j := row - r.rect.y, col - r.rect.x;
      assert r.mask.px[i][j] == AlignedPixel(anchor, seam, r.rect.x, r.rect.y, i, j);
    }
  }

  /** The intended merge of the overlapping pair the code rejects: one
      15-pixel seam, every pixel a defect pixel. */
  lemma AlignedMergesOverlap(anchor: DetectResult, seam: DetectResult)
    requires anchor == DetectResult(Rect(0, 0, 10, 1), 0.5, Mask(1, 10, [seq(10, _ => White)]), 1)
    requires seam == DetectResult(Rect(5, 0, 10, 1), 0.5, Mask(1, 10, [seq(10, _ => White)]), 1)
    ensures WellFormed(anchor) && WellFormed(seam) && Touches(anchor, seam)
    ensures AbsorbAligned(anchor, seam).rect == Rect(0, 0, 15, 1)
    ensures AbsorbAligned(anchor, seam).mask.px == [seq(15, _ => White)]
  {
    assert WellFormed(anchor) && WellFormed(seam);
    var r := AbsorbAligned(anchor, seam);
    forall j | 0 <= j < 15
      ensures r.mask.px[0][j] == White
    {
      assert r.mask.px[0][j] == AlignedPixel(anchor, seam, 0, 0, 0, j);
      assert OnAt(anchor, j, 0) || OnAt(seam, j, 0);
    }
    assert r.mask.px[0] == seq(15, _ => White);
  }

  /** Where the code is right: a binary-masked seam starting exactly at the
      anchor's right edge is merged identically by both versions. */
  lemma AlignedAgreesWhenAbutting(anchor: DetectResult, seam: DetectResult)
    requires Valid(anchor) && Valid(seam)
    requires anchor.rect.y == seam.rect.y && seam.rect.x == anchor.rect.Right()
    ensures Absorb(anchor, seam).Some? && Absorb(anchor, seam).value == AbsorbAligned(anchor, seam)
  {
    var w := Absorb(anchor, seam).value;
    var r := AbsorbAligned(anchor, seam);
    forall i | 0 <= i < r.rect.height
      ensures w.mask.px[i] == r.mask.px[i]
    {
      forall j | 0 <= j < r.rect.width
        ensures w.mask.px[i][j] == r.mask.px[i][j]
      {
        assert w.mask.px[i][j] == PastedPixel(anchor.mask, seam.mask, i, j);
        assert r.mask.px[i][j] == AlignedPixel(anchor, seam, r.rect.x, r.rect.y, i, j);
        if j >= anchor.mask.cols && i < seam.mask.rows && j - anchor.mask.cols < seam.mask.cols {
          assert seam.mask.px[i][j - anchor.mask.cols] == Black || seam.mask.px[i][j - anchor.mask.cols] == White;
        }
      }
    }
    assert w.mask.px == r.mask.px;
  }

  /** The anchor list after a seam is folded in with the intended
      absorption: the same first-match scan, but the update never fails. */
  function AddToAnchorsAligned(anchors: seq<DetectResult>, seam: DetectResult): (r: seq<DetectResult>)
    requires AllWellFormed(anchors) && WellFormed(seam)
    ensures AllWellFormed(r)
    ensures AllValid(anchors) && Valid(seam) ==> AllValid(r)
    ensures FirstMatch(anchors, seam) == |anchors| ==> r == anchors + [seam]
    ensures FirstMatch(anchors, seam) < |anchors| ==>
      |r| == |anchors| &&
      r[FirstMatch(anchors, seam)] == AbsorbAligned(anchors[FirstMatch(anchors, seam)], seam) &&
      forall t :: 0 <= t < |anchors| && t != FirstMatch(anchors, seam) ==> r[t] == anchors[t]
  {
    var k := FirstMatch(anchors, seam);
    if k == |anchors| then anchors + [seam]
    else anchors[k := AbsorbAligned(anchors[k], seam)]
  }

  /** Where the code is right, the as-written and the intended anchor
      updates agree: the matched anchor's right edge is where the seam starts. */
  lemma AlignedAnchorsAgree(anchors: seq<DetectResult>, seam: DetectResult)
    requires AllWellFormed(anchors) && AllValid(anchors) && Valid(seam)
    requires var k := FirstMatch(anchors, seam); k < |anchors| ==> seam.rect.x == anchors[k].rect.Right()
    ensures AddToAnchors(anchors, seam) == Some(AddToAnchorsAligned(anchors, seam))
  {
    var k := FirstMatch(anchors, seam);
    if k < |anchors| {
      AlignedAgreesWhenAbutting(anchors[k], seam);
    }
  }
}
