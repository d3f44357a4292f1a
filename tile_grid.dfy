/** The construction of the batch grid in main.cpp: the image is cut into
    rows x cols batches of a nominal size, the last row and column clamped
    to the image. The image and batch sizes are parameters here (the
    program fixes 1200 x 1000 and 500 x 500). */
module TileGrid {
  import opened DataStructs

  /** The number of batches of size `part` needed to cover `total` pixels:
      the integer quotient plus one when there is a remainder. */
  function CeilDiv(total: int, part: int): (n: nat)
    requires total >= 0 && part > 0
    ensures (n - 1) * part < total <= n * part
  {
    var q, r := total / part, total % part;
    assert total == q * part + r;
    var n := q + (if r != 0 then 1 else 0);
    assert (n - 1) * part == n * part - part;
    assert (q + 1) * part == q * part + part;
    n
  }

  /** The rectangle of batch [i][j]: its origin is (j * batchW, i * batchH),
      its size the nominal one clamped to the image. */
  function TileRect(i: int, j: int, imageW: int, imageH: int, batchW: int, batchH: int): (r: Rect)
    ensures r.x == j * batchW && r.y == i * batchH
    ensures r.Right() == Min(r.x + batchW, imageW) && r.Bottom() == Min(r.y + batchH, imageH)
  {
    Rect(j * batchW, i * batchH, Min(batchW, imageW - j * batchW), Min(batchH, imageH - i * batchH))
  }

  /** A batch with an empty rectangle and no detections, as a resized vector holds. */
  const EmptyBatch := BatchResult(Rect(0, 0, 0, 0), [])

  /** Row i of the finished grid: cols batches with their rectangles set and no detections. */
  function TileRow(i: int, cols: nat, imageW: int, imageH: int, batchW: int, batchH: int): (row: seq<BatchResult>)
    ensures |row| == cols
    ensures forall j :: 0 <= j < cols ==> row[j] == BatchResult(TileRect(i, j, imageW, imageH, batchW, batchH), [])
  {
    seq(cols, j => BatchResult(TileRect(i, j, imageW, imageH, batchW, batchH), []))
  }

  /** Builds the grid: CeilDiv(imageH, batchH) rows of CeilDiv(imageW, batchW)
      batches, then sets each batch's rectangle field by field. */
  method BuildGrid(imageW: int, imageH: int, batchW: int, batchH: int) returns (batches: seq<seq<BatchResult>>)
    requires imageW >= 0 && imageH >= 0 && batchW > 0 && batchH > 0
    ensures |batches| == CeilDiv(imageH, batchH)
    ensures forall i :: 0 <= i < |batches| ==> |batches[i]| == CeilDiv(imageW, batchW)
    ensures forall i, j :: 0 <= i < |batches| && 0 <= j < |batches[i]| ==>
      batches[i][j].batchRect == TileRect(i, j, imageW, imageH, batchW, batchH) && batches[i][j].detects == []
  {
    var cols := imageW / batchW + (if imageW % batchW != 0 then 1 else 0);
    var rows := imageH / batchH + (if imageH % batchH != 0 then 1 else 0);
    ghost var empty := seq(cols, _ => EmptyBatch);

    // resize to rows, then every row to cols
    batches := seq(rows, _ => []);
    var r := 0;
    while r < |batches|
      invariant 0 <= r <= |batches| == rows
      invariant forall t :: 0 <= t < r ==> batches[t] == empty
    {
      batches := batches[r := seq(cols, _ => EmptyBatch)];
      r := r + 1;
    }

    var i := 0;
    while i < |batches|
      invariant 0 <= i <= |batches| == rows
      invariant forall t :: 0 <= t < i ==> batches[t] == TileRow(t, cols, imageW, imageH, batchW, batchH)
      invariant forall t :: i <= t < rows ==> batches[t] == empty
    {
      ghost var before := batches;
      var j := 0;
      while j < |batches[i]|
        invariant |batches| == rows && |batches[i]| == cols && 0 <= j <= cols
        invariant forall t :: 0 <= t < rows && t != i ==> batches[t] == before[t]
        invariant forall c :: 0 <= c < j ==>
          batches[i][c] == BatchResult(TileRect(i, c, imageW, imageH, batchW, batchH), [])
        invariant forall c :: j <= c < cols ==> batches[i][c] == EmptyBatch
      {
        var batch := batches[i][j];
        batch := batch.(batchRect := batch.batchRect.(x := j * batchW));
        batch := batch.(batchRect := batch.batchRect.(y := i * batchH));
        batch := batch.(batchRect := batch.batchRect.(width := Min(batchW, imageW - batch.batchRect.x)));
        batch := batch.(batchRect := batch.batchRect.(height := Min(batchH, imageH - batch.batchRect.y)));
        assert batch == BatchResult(TileRect(i, j, imageW, imageH, batchW, batchH), []);
        batches := batches[i := batches[i][j := batch]];
        j := j + 1;
      }
      assert batches[i] == TileRow(i, cols, imageW, imageH, batchW, batchH);
      i := i + 1;
    }
  }

  /** Multiplying by a non-negative number keeps the order. */
  lemma MulMonotone(a: int, b: int, c: int)
    requires a <= b && c >= 0
    ensures a * c <= b * c
  {
    assert b * c - a * c == (b - a) * c;
  }

  /** Index j of n batches of size `part` covering `total` pixels starts
      inside the covered range, and before `total` when j is not the last. */
  lemma BatchStart(j: int, total: int, part: int)
    requires total >= 0 && part > 0 && 0 <= j < CeilDiv(total, part)
    ensures 0 <= j * part < total
    ensures (j + 1) * part == j * part + part
    ensures j + 1 < CeilDiv(total, part) ==> (j + 1) * part < total
    ensures j + 1 == CeilDiv(total, part) ==> total <= j * part + part
  {
    var n := CeilDiv(total, part);
    MulMonotone(0, j, part);
    MulMonotone(j, n - 1, part);
    if j + 1 < n {
      MulMonotone(j + 1, n - 1, part);
    }
  }

  /** A batch inside the grid has a positive size no larger than the
      nominal one, starts inside the image and ends at or before its edge. */
  lemma TileInsideImage(i: int, j: int, imageW: int, imageH: int, batchW: int, batchH: int)
    requires imageW >= 0 && imageH >= 0 && batchW > 0 && batchH > 0
    requires 0 <= i < CeilDiv(imageH, batchH) && 0 <= j < CeilDiv(imageW, batchW)
    ensures var t := TileRect(i, j, imageW, imageH, batchW, batchH);
      0 <= t.x && 0 < t.width <= batchW && t.Right() <= imageW &&
      0 <= t.y && 0 < t.height <= batchH && t.Bottom() <= imageH
  {
    BatchStart(j, imageW, batchW);
    BatchStart(i, imageH, batchH);
  }

  /** Neighbouring batches abut, and the last column and row end exactly at
      the image's right and bottom edges. */
  lemma TilesAbut(i: int, j: int, imageW: int, imageH: int, batchW: int, batchH: int)
    requires imageW >= 0 && imageH >= 0 && batchW > 0 && batchH > 0
    requires 0 <= i < CeilDiv(imageH, batchH) && 0 <= j < CeilDiv(imageW, batchW)
    ensures var t := TileRect(i, j, imageW, imageH, batchW, batchH);
      (j + 1 < CeilDiv(imageW, batchW) ==> TileRect(i, j + 1, imageW, imageH, batchW, batchH).x == t.Right()) &&
      (j + 1 == CeilDiv(imageW, batchW) ==> t.Right() == imageW) &&
      (i + 1 < CeilDiv(imageH, batchH) ==> TileRect(i + 1, j, imageW, imageH, batchW, batchH).y == t.Bottom()) &&
      (i + 1 == CeilDiv(imageH, batchH) ==> t.Bottom() == imageH)
  {
    BatchStart(j, imageW, batchW);
    BatchStart(i, imageH, batchH);
  }

  /** The batch index of a pixel coordinate: the coordinate divided by the
      batch size is one of the n batches, and the batch's range holds it. */
  lemma BatchOf(p: int, total: int, part: int)
    requires total >= 0 && part > 0 && 0 <= p < total
    ensures 0 <= p / part < CeilDiv(total, part)
    ensures (p / part) * part <= p < (p / part) * part + part
  {
    var j, n := p / part, CeilDiv(total, part);
    assert p == j * part + p % part;
    if j >= n {
      MulMonotone(n, j, part);
    }
  }

  /** Every pixel of the image lies in the batch whose indices are its
      coordinates divided by the batch size. */
  lemma TilesCover(px: int, py: int, imageW: int, imageH: int, batchW: int, batchH: int)
    requires imageW >= 0 && imageH >= 0 && batchW > 0 && batchH > 0
    requires 0 <= px < imageW && 0 <= py < imageH
    ensures var i, j := py / batchH, px / batchW;
      0 <= i < CeilDiv(imageH, batchH) && 0 <= j < CeilDiv(imageW, batchW) &&
      var t := TileRect(i, j, imageW, imageH, batchW, batchH);
      t.x <= px < t.Right() && t.y <= py < t.Bottom()
  {
    BatchOf(px, imageW, batchW);
    BatchOf(py, imageH, batchH);
  }

  /** The program's own sizes: a 1200 x 1000 image in 500 x 500 batches
      gives 2 rows of 3 batches, the last column 200 pixels wide. */
  lemma ProgramGrid()
    ensures CeilDiv(1200, 500) == 3 && CeilDiv(1000, 500) == 2
    ensures TileRect(1, 2, 1200, 1000, 500, 500) == Rect(1000, 500, 200, 500)
  {
  }
}
