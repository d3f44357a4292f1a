/** What the seam merge guarantees: the layout of the pasted mask, the
    validity of merged detections, first-match absorption, conservation of
    detections, and the facts about failure and traversal order that the
    imperative routines rely on. */
module MergeProperties {
  import opened DataStructs
  import opened SeamMerge

  // ---------------------------------------------------------------------------
  // Counting detections by kind

  /** The detections that are not seams, in order. */
  function NonSeams(ds: seq<DetectResult>): seq<DetectResult>
  {
    if ds == [] then []
    else NonSeams(ds[..|ds| - 1]) + (if IsSeam(ds[|ds| - 1]) then [] else [ds[|ds| - 1]])
  }

  /** The number of seams. */
  function SeamCount(ds: seq<DetectResult>): nat
  {
    if ds == [] then 0
    else SeamCount(ds[..|ds| - 1]) + (if IsSeam(ds[|ds| - 1]) then 1 else 0)
  }

  lemma {:induction false} FiltersAppend(a: seq<DetectResult>, b: seq<DetectResult>)
    ensures NonSeams(a + b) == NonSeams(a) + NonSeams(b)
    ensures SeamCount(a + b) == SeamCount(a) + SeamCount(b)
    decreases |b|
  {
    if b == [] {
      assert a + b == a;
    } else {
      var b' := b[..|b| - 1];
      FiltersAppend(a, b');
      assert (a + b)[..|a + b| - 1] == a + b';
    }
  }

  lemma FiltersSnoc(a: seq<DetectResult>, d: DetectResult)
    ensures NonSeams(a + [d]) == NonSeams(a) + (if IsSeam(d) then [] else [d])
    ensures SeamCount(a + [d]) == SeamCount(a) + (if IsSeam(d) then 1 else 0)
  {
    assert (a + [d])[..|a + [d]| - 1] == a;
  }

  /** Every detection is either a seam or kept by NonSeams. */
  lemma {:induction false} FiltersPartition(ds: seq<DetectResult>)
    ensures |NonSeams(ds)| + SeamCount(ds) == |ds|
    decreases |ds|
  {
    if ds != [] {
      FiltersPartition(ds[..|ds| - 1]);
    }
  }

  lemma {:induction false} FiltersOfSeams(ds: seq<DetectResult>)
    requires AllSeams(ds)
    ensures NonSeams(ds) == [] && SeamCount(ds) == |ds|
    decreases |ds|
  {
    if ds != [] {
      FiltersOfSeams(ds[..|ds| - 1]);
    }
  }

  // ---------------------------------------------------------------------------
  // The merge step

  /** The merged raster holds the old anchor mask at columns [0, oldWidth),
      the incoming mask from column oldWidth on, and black everywhere else. */
  lemma PastedLayout(first: Mask, second: Mask, w: nat, h: nat)
    requires first.Shaped() && second.Shaped() && PasteFits(first, second, w, h)
    ensures var m := Pasted(first, second, w, h);
      (forall i, j :: 0 <= i < first.rows && 0 <= j < first.cols ==> m.px[i][j] == first.px[i][j]) &&
      (forall i, j :: 0 <= i < second.rows && 0 <= j < second.cols ==>
         m.px[i][first.cols + j] == second.px[i][j]) &&
      (forall i, j ::
         (0 <= i < h && 0 <= j < w &&
          !(i < first.rows && j < first.cols) &&
          !(i < second.rows && first.cols <= j < first.cols + second.cols)) ==> m.px[i][j] == Black)
  {
    var m := Pasted(first, second, w, h);
    forall i, j | 0 <= i < second.rows && 0 <= j < second.cols
      ensures m.px[i][first.cols + j] == second.px[i][j]
    {
      assert m.px[i][first.cols + j] == PastedPixel(first, second, i, first.cols + j);
    }
  }

  /** Absorbing a seam re-establishes the full invariant of a detection:
      the mask stays the rectangle's size and binary, the confidence is the
      anchor's. */
  lemma AbsorbValid(anchor: DetectResult, seam: DetectResult)
    requires Valid(anchor) && Valid(seam)
    ensures Absorb(anchor, seam).Some? ==> Valid(Absorb(anchor, seam).value)
  {
    var r := Absorb(anchor, seam);
    if r.Some? {
      var m := r.value.mask;
      forall i, j | 0 <= i < m.rows && 0 <= j < m.cols
        ensures m.px[i][j] == Black || m.px[i][j] == White
      {
        assert m.px[i][j] == PastedPixel(anchor.mask, seam.mask, i, j);
      }
    }
  }

  /** A merged seam spans both inputs: from the leftmost left edge to the
      rightmost right edge, as tall as the taller one. */
  lemma AbsorbCovers(anchor: DetectResult, seam: DetectResult)
    requires WellFormed(anchor) && WellFormed(seam)
    requires Absorb(anchor, seam).Some?
    ensures var r := Absorb(anchor, seam).value.rect;
      r.x <= anchor.rect.x && r.x <= seam.rect.x &&
      anchor.rect.Right() <= r.Right() && seam.rect.Right() <= r.Right() &&
      anchor.rect.height <= r.height && seam.rect.height <= r.height &&
      r.width == anchor.rect.width + seam.rect.width + (Max(anchor.rect.x, seam.rect.x) - Min(anchor.rect.Right(), seam.rect.Right()))
  {
  }

  /** Two 500-pixel seams meeting at x = 500 touch, and the paste succeeds
      with one seam spanning both. */
  lemma AbuttingSeams(a: DetectResult, s: DetectResult)
    requires WellFormed(a) && WellFormed(s)
    requires a.rect == Rect(0, 100, 500, 50) && s.rect == Rect(500, 100, 500, 50)
    ensures Touches(a, s) && Absorb(a, s).Some? && Absorb(a, s).value.rect == Rect(0, 100, 1000, 50)
  {
  }

  /** The tolerance boundary: a 10-pixel gap still touches, an 11-pixel gap does not. */
  lemma ToleranceBoundary(anchor: DetectResult, near: DetectResult, far: DetectResult)
    requires anchor.rect == Rect(0, 0, 100, 5)
    requires near.rect == Rect(110, 0, 50, 5) && far.rect == Rect(111, 0, 50, 5)
    ensures Touches(anchor, near) && !Touches(anchor, far)
  {
  }

  /** One seam visited: the output is untouched; if no anchor touches the
      seam it is appended as the last anchor, otherwise the first touching
      anchor (and only it) absorbs it, or the run stops. */
  lemma SeamStep(s: RowState, d: DetectResult)
    requires AllWellFormed(s.anchors) && WellFormed(d) && s.ok && IsSeam(d)
    ensures var r := Step(s, d);
      r.out == s.out &&
      ((forall t :: 0 <= t < |s.anchors| ==> !Touches(s.anchors[t], d)) ==>
         r.ok && r.anchors == s.anchors + [d] && r.merges == s.merges) &&
      (forall k ::
         (0 <= k < |s.anchors| && Touches(s.anchors[k], d) &&
          (forall t :: 0 <= t < k ==> !Touches(s.anchors[t], d))) ==>
         r.ok == Absorb(s.anchors[k], d).Some? &&
         (r.ok ==> |r.anchors| == |s.anchors| && r.anchors[k] == Absorb(s.anchors[k], d).value &&
                   r.merges == s.merges + 1 &&
                   forall t :: 0 <= t < |s.anchors| && t != k ==> r.anchors[t] == s.anchors[t]))
  {
    var k := FirstMatch(s.anchors, d);
    forall k' | 0 <= k' < |s.anchors| && Touches(s.anchors[k'], d) &&
         (forall t :: 0 <= t < k' ==> !Touches(s.anchors[t], d))
      ensures k' == k
    {
    }
  }

  // ---------------------------------------------------------------------------
  // Failure is final

  lemma {:induction false} FoldRowFailed(s: RowState, ds: seq<DetectResult>)
    requires AllWellFormed(s.anchors) && AllWellFormed(ds) && !s.ok
    ensures FoldRow(s, ds) == s
    decreases |ds|
  {
    if ds != [] {
      FoldRowFailed(s, ds[..|ds| - 1]);
    }
  }

  lemma AllWellFormedAppend(a: seq<DetectResult>, b: seq<DetectResult>)
    requires AllWellFormed(a) && AllWellFormed(b)
    ensures AllWellFormed(a + b)
  {
  }

  lemma {:induction false} FoldRowAppend(s: RowState, xs: seq<DetectResult>, ys: seq<DetectResult>)
    requires AllWellFormed(s.anchors) && AllWellFormed(xs) && AllWellFormed(ys)
    ensures AllWellFormed(xs + ys)
    ensures FoldRow(s, xs + ys) == FoldRow(FoldRow(s, xs), ys)
    decreases |ys|
  {
    AllWellFormedAppend(xs, ys);
    if ys == [] {
      assert xs + ys == xs;
    } else {
      var ys' := ys[..|ys| - 1];
      FoldRowAppend(s, xs, ys');
      assert (xs + ys)[..|xs + ys| - 1] == xs + ys';
    }
  }

  /** Visiting one more detection is one more Step. */
  lemma FoldRowSnoc(s: RowState, xs: seq<DetectResult>, d: DetectResult)
    requires AllWellFormed(s.anchors) && AllWellFormed(xs) && WellFormed(d)
    ensures AllWellFormed(xs + [d])
    ensures FoldRow(s, xs + [d]) == Step(FoldRow(s, xs), d)
  {
    assert (xs + [d])[..|xs + [d]| - 1] == xs;
  }

  lemma {:induction false} RowDetectsSplit(row: seq<BatchResult>, b: nat)
    requires b <= |row|
    ensures RowDetects(row) == RowDetects(row[..b]) + RowDetects(row[b..])
    decreases |row|
  {
    if b == |row| {
      assert row[..b] == row;
      assert row[b..] == [];
    } else {
      var row' := row[..|row| - 1];
      RowDetectsSplit(row', b);
      assert row'[..b] == row[..b];
      assert row[b..][..|row[b..]| - 1] == row'[b..];
    }
  }

  /** Traversing one more batch appends its detections. */
  lemma RowDetectsSnoc(row: seq<BatchResult>, b: nat)
    requires b < |row|
    ensures RowDetects(row[..b + 1]) == RowDetects(row[..b]) + row[b].detects
  {
    assert row[..b + 1][..b] == row[..b];
  }

  /** Traversing one more row appends its detections. */
  lemma GridDetectsSnoc(grid: seq<seq<BatchResult>>, i: nat)
    requires i < |grid|
    ensures GridDetects(grid[..i + 1]) == GridDetects(grid[..i]) + RowDetects(grid[i])
  {
    assert grid[..i + 1][..i] == grid[..i];
  }

  /** Once a prefix of a sequence of detections has failed, visiting the
      rest changes nothing. */
  lemma {:induction false} FoldRowPrefixFailed(s: RowState, ds: seq<DetectResult>, k: nat)
    requires AllWellFormed(s.anchors) && AllWellFormed(ds) && k <= |ds|
    requires !FoldRow(s, ds[..k]).ok
    ensures FoldRow(s, ds) == FoldRow(s, ds[..k])
    decreases |ds|
  {
    if k == |ds| {
      assert ds[..k] == ds;
    } else {
      var ds' := ds[..|ds| - 1];
      assert ds'[..k] == ds[..k];
      FoldRowPrefixFailed(s, ds', k);
    }
  }

  /** Once the first n batches of a row have failed, the whole row has
      failed in the same state. */
  lemma RowPrefixFailed(start: RowState, row: seq<BatchResult>, n: nat)
    requires RowWellFormed(row) && AllWellFormed(start.anchors) && n <= |row|
    requires RowWellFormed(row[..n]) && (RowDetectsWellFormed(row[..n]); !FoldRow(start, RowDetects(row[..n])).ok)
    ensures (RowDetectsWellFormed(row);
      FoldRow(start, RowDetects(row)) == FoldRow(start, RowDetects(row[..n])))
  {
    var pre, all := RowDetects(row[..n]), RowDetects(row);
    RowDetectsSplit(row, n);
    assert all[..|pre|] == pre;
    RowDetectsWellFormed(row);
    FoldRowPrefixFailed(start, all, |pre|);
  }

  lemma {:induction false} MergeGridFailed(out0: seq<DetectResult>, grid: seq<seq<BatchResult>>, n: nat)
    requires GridWellFormed(grid) && n <= |grid|
    requires !MergeGrid(out0, grid[..n]).ok
    ensures MergeGrid(out0, grid) == MergeGrid(out0, grid[..n])
    decreases |grid|
  {
    if n < |grid| {
      var grid' := grid[..|grid| - 1];
      assert grid'[..n] == grid[..n];
      MergeGridFailed(out0, grid', n);
    } else {
      assert grid[..n] == grid;
    }
  }

  // ---------------------------------------------------------------------------
  // Conservation

  /** One detection visited: a non-seam is appended to the output, a seam
      either becomes a new anchor or is absorbed. */
  lemma StepCounts(p: RowState, d: DetectResult)
    requires AllWellFormed(p.anchors) && WellFormed(d)
    ensures var r := Step(p, d);
      r.ok ==>
        NonSeams(r.out) == NonSeams(p.out) + (if IsSeam(d) then [] else [d]) &&
        SeamCount(r.out) == SeamCount(p.out) &&
        |r.anchors| + (r.merges - p.merges) == |p.anchors| + (if IsSeam(d) then 1 else 0)
  {
    if p.ok && !IsSeam(d) {
      FiltersSnoc(p.out, d);
    }
  }

  /** Within a row: non-seams reach the output unchanged and in order,
      seams go to the anchor list, and every seam either became an anchor
      or was absorbed into one. */
  lemma {:induction false} FoldRowCounts(s: RowState, ds: seq<DetectResult>)
    requires AllWellFormed(s.anchors) && AllWellFormed(ds)
    ensures var r := FoldRow(s, ds);
      r.ok ==>
        NonSeams(r.out) == NonSeams(s.out) + NonSeams(ds) &&
        SeamCount(r.out) == SeamCount(s.out) &&
        |r.anchors| + (r.merges - s.merges) == |s.anchors| + SeamCount(ds)
    decreases |ds|
  {
    if ds != [] {
      var xs, d := ds[..|ds| - 1], ds[|ds| - 1];
      FoldRowCounts(s, xs);
      var p := FoldRow(s, xs);
      StepCounts(p, d);
      assert FoldRow(s, ds) == Step(p, d);
    }
  }

  /** Within a row the output only ever receives non-seams, each at the
      moment it is visited: while the run lasts, the output is the initial
      one followed by the visited non-seams in order. */
  lemma {:induction false} FoldRowOut(s: RowState, ds: seq<DetectResult>)
    requires AllWellFormed(s.anchors) && AllWellFormed(ds)
    ensures FoldRow(s, ds).ok ==> FoldRow(s, ds).out == s.out + NonSeams(ds)
    decreases |ds|
  {
    if ds == [] {
      assert s.out + NonSeams(ds) == s.out;
    } else {
      var xs, d := ds[..|ds| - 1], ds[|ds| - 1];
      FoldRowOut(s, xs);
      var p := FoldRow(s, xs);
      assert FoldRow(s, ds) == Step(p, d);
      if p.ok && !IsSeam(d) {
        assert s.out + NonSeams(xs) + [d] == s.out + (NonSeams(xs) + [d]);
      }
    }
  }

  /** The output of one row: the earlier output unchanged, then the row's
      non-seams in traversal order, then the row's anchor list, which holds
      only seams of this row; each of the row's seams became an anchor or
      was absorbed. */
  lemma MergeRowLayout(run: Run, row: seq<BatchResult>)
    requires RowWellFormed(row) && run.ok
    ensures var r, n := MergeRow(run, row), |run.out| + |NonSeams(RowDetects(row))|;
      r.ok ==>
        n <= |r.out| && r.out[..n] == run.out + NonSeams(RowDetects(row)) &&
        AllSeams(r.out[n..]) && |r.out| - n + (r.merges - run.merges) == SeamCount(RowDetects(row))
  {
    var start := RowState(run.out, [], run.merges, true);
    RowDetectsWellFormed(row);
    var ds := RowDetects(row);
    var s := FoldRow(start, ds);
    FoldRowOut(start, ds);
    FoldRowCounts(start, ds);
    if s.ok {
      var n := |run.out| + |NonSeams(ds)|;
      var r := MergeRow(run, row);
      assert r.out == s.out + s.anchors;
      assert r.out[..n] == s.out;
      assert r.out[n..] == s.anchors;
    }
  }

  /** One row: its non-seams are appended in order, and its seams are
      appended merged, the absorbed ones counted. */
  lemma MergeRowCounts(run: Run, row: seq<BatchResult>)
    requires RowWellFormed(row) && run.ok
    ensures var r := MergeRow(run, row);
      r.ok ==>
        NonSeams(r.out) == NonSeams(run.out) + NonSeams(RowDetects(row)) &&
        SeamCount(r.out) + r.merges == SeamCount(run.out) + run.merges + SeamCount(RowDetects(row))
  {
    var start := RowState(run.out, [], run.merges, true);
    RowDetectsWellFormed(row);
    var s := FoldRow(start, RowDetects(row));
    FoldRowCounts(start, RowDetects(row));
    if s.ok {
      FiltersOfSeams(s.anchors);
      FiltersAppend(s.out, s.anchors);
    }
  }

  /** The counts of two consecutive stretches of the traversal add up. */
  lemma CountsCompose(out0: seq<DetectResult>, gd: seq<DetectResult>, rd: seq<DetectResult>,
                      mid: seq<DetectResult>, midMerges: nat, out: seq<DetectResult>, merges: nat)
    requires NonSeams(mid) == NonSeams(out0) + NonSeams(gd)
    requires SeamCount(mid) + midMerges == SeamCount(out0) + SeamCount(gd)
    requires NonSeams(out) == NonSeams(mid) + NonSeams(rd)
    requires SeamCount(out) + merges == SeamCount(mid) + midMerges + SeamCount(rd)
    ensures NonSeams(out) == NonSeams(out0) + NonSeams(gd + rd)
    ensures SeamCount(out) + merges == SeamCount(out0) + SeamCount(gd + rd)
  {
    FiltersAppend(gd, rd);
    Regroup(NonSeams(out), NonSeams(mid), NonSeams(out0), NonSeams(gd), NonSeams(rd));
  }

  /** Concatenation regrouped, away from the unfolding of NonSeams. */
  lemma Regroup<T>(x: seq<T>, m: seq<T>, a: seq<T>, b: seq<T>, c: seq<T>)
    requires m == a + b && x == m + c
    ensures x == a + (b + c)
  {
  }

  /** Over the whole grid: the non-seam detections of the output are those
      of the initial output followed by those of the input in traversal
      order, and the output's seams plus the absorbed ones are exactly the
      initial output's seams plus the input's seams. */
  lemma {:induction false} MergeGridCounts(out0: seq<DetectResult>, grid: seq<seq<BatchResult>>)
    requires GridWellFormed(grid)
    ensures var r := MergeGrid(out0, grid);
      r.ok ==>
        NonSeams(r.out) == NonSeams(out0) + NonSeams(GridDetects(grid)) &&
        SeamCount(r.out) + r.merges == SeamCount(out0) + SeamCount(GridDetects(grid))
    decreases |grid|
  {
    if grid != [] {
      var grid', row := grid[..|grid| - 1], grid[|grid| - 1];
      assert GridWellFormed(grid') && RowWellFormed(row);
      var prev := MergeGrid(out0, grid');
      MergeGridCounts(out0, grid');
      if prev.ok {
        var gd, rd, r := GridDetects(grid'), RowDetects(row), MergeRow(prev, row);
        assert GridDetects(grid) == gd + rd;
        assert MergeGrid(out0, grid) == r;
        MergeRowCounts(prev, row);
        if r.ok {
          CountsCompose(out0, gd, rd, prev.out, prev.merges, r.out, r.merges);
        }
      }
    }
  }

  /** Conservation: the output grows by the number of input detections
      minus the number of absorbed seams. */
  lemma Conservation(out0: seq<DetectResult>, grid: seq<seq<BatchResult>>)
    requires GridWellFormed(grid)
    ensures var r := MergeGrid(out0, grid);
      r.ok ==> |r.out| + r.merges == |out0| + |GridDetects(grid)|
  {
    var r := MergeGrid(out0, grid);
    MergeGridCounts(out0, grid);
    FiltersPartition(r.out);
    FiltersPartition(out0);
    FiltersPartition(GridDetects(grid));
    FiltersAppend(out0, GridDetects(grid));
  }

  // ---------------------------------------------------------------------------
  // Validity

  lemma {:induction false} FoldRowValid(s: RowState, ds: seq<DetectResult>)
    requires AllWellFormed(s.anchors) && AllWellFormed(ds)
    requires AllValid(s.out) && AllValid(s.anchors) && AllValid(ds)
    ensures AllValid(FoldRow(s, ds).out) && AllValid(FoldRow(s, ds).anchors)
    decreases |ds|
  {
    if ds != [] {
      var xs, d := ds[..|ds| - 1], ds[|ds| - 1];
      FoldRowValid(s, xs);
      var p := FoldRow(s, xs);
      if p.ok && IsSeam(d) {
        var k := FirstMatch(p.anchors, d);
        if k < |p.anchors| {
          AbsorbValid(p.anchors[k], d);
        }
      }
    }
  }

  /** Given valid inputs, every detection the merger outputs is valid. */
  lemma {:induction false} MergeGridValid(out0: seq<DetectResult>, grid: seq<seq<BatchResult>>)
    requires GridWellFormed(grid) && GridValid(grid) && AllValid(out0)
    ensures AllValid(MergeGrid(out0, grid).out)
    decreases |grid|
  {
    if grid != [] {
      var grid', row := grid[..|grid| - 1], grid[|grid| - 1];
      assert GridValid(grid');
      MergeGridValid(out0, grid');
      var prev := MergeGrid(out0, grid');
      if prev.ok {
        RowDetectsWellFormed(row);
        RowDetectsValid(row);
        FoldRowValid(RowState(prev.out, [], prev.merges, true), RowDetects(row));
      }
    }
  }

  // ---------------------------------------------------------------------------
  // The two mergers agree when there is nothing to merge

  predicate NoSeams(ds: seq<DetectResult>)
  {
    forall k :: 0 <= k < |ds| ==> !IsSeam(ds[k])
  }

  lemma {:induction false} FoldRowNoSeams(s: RowState, ds: seq<DetectResult>)
    requires AllWellFormed(s.anchors) && AllWellFormed(ds) && NoSeams(ds) && s.ok
    ensures FoldRow(s, ds) == s.(out := s.out + ds)
    decreases |ds|
  {
    if ds == [] {
      assert s.out + ds == s.out;
    } else {
      var xs, d := ds[..|ds| - 1], ds[|ds| - 1];
      FoldRowNoSeams(s, xs);
      assert ds == xs + [d];
    }
  }

  lemma NoSeamsSplit(a: seq<DetectResult>, b: seq<DetectResult>)
    requires NoSeams(a + b)
    ensures NoSeams(a) && NoSeams(b)
  {
    forall k | 0 <= k < |a| ensures !IsSeam(a[k]) { assert a[k] == (a + b)[k]; }
    forall k | 0 <= k < |b| ensures !IsSeam(b[k]) { assert b[k] == (a + b)[|a| + k]; }
  }

  lemma MergeRowNoSeams(run: Run, row: seq<BatchResult>)
    requires RowWellFormed(row) && NoSeams(RowDetects(row)) && run.ok
    ensures MergeRow(run, row) == Run(run.out + RowDetects(row), run.merges, true)
  {
    RowDetectsWellFormed(row);
    FoldRowNoSeams(RowState(run.out, [], run.merges, true), RowDetects(row));
    assert run.out + RowDetects(row) + [] == run.out + RowDetects(row);
  }

  /** Without seams the seam merger appends every detection unchanged, in
      traversal order, absorbing nothing: it behaves like the pass-through
      merger. */
  lemma {:induction false} NoSeamsPassThrough(out0: seq<DetectResult>, grid: seq<seq<BatchResult>>)
    requires GridWellFormed(grid) && NoSeams(GridDetects(grid))
    ensures MergeGrid(out0, grid) == Run(out0 + GridDetects(grid), 0, true)
    decreases |grid|
  {
    if grid == [] {
      assert out0 + GridDetects(grid) == out0;
    } else {
      var grid', row := grid[..|grid| - 1], grid[|grid| - 1];
      assert GridWellFormed(grid') && RowWellFormed(row);
      var gd, rd := GridDetects(grid'), RowDetects(row);
      assert GridDetects(grid) == gd + rd;
      NoSeamsSplit(gd, rd);
      NoSeamsPassThrough(out0, grid');
      var prev := MergeGrid(out0, grid');
      assert MergeGrid(out0, grid) == MergeRow(prev, row);
      MergeRowNoSeams(prev, row);
      assert out0 + (gd + rd) == prev.out + rd;
    }
  }
}
