/** Value types exchanged between the tiled detector and the merger:
    a rectangle, an 8-bit single-channel mask, one detection and the
    detections of one batch (tile), plus the closed enumeration of defect kinds. */
module DataStructs {

  /** An 8-bit unsigned pixel value (the CV_8UC1 element type). */
  newtype uint8 = x: int | 0 <= x < 256

  /** Black: not a defect pixel. */
  const Black: uint8 := 0
  /** White: a defect pixel. */
  const White: uint8 := 255

  /** The 23 defect kinds, followed by Default as the last member. */
  datatype DefectType =
    | Seam
    | HangingString
    | Dissection
    | Blisna
    | ThreadSpan
    | DoubleThreadY
    | DoubleThreadX
    | ViolationOfWeaving
    | StuffedFluff
    | LightStrip
    | Fold
    | Crease
    | WaterLeak
    | Spot
    | Contamination
    | Knot
    | Thickening
    | ThreadThickeningY
    | ThreadThickeningX
    | DifferentThreadY
    | DifferentThreadX
    | IncompleteDoubleThread
    | SparseThread
    | Default

  /** The number of members of DefectType. */
  const DefectTypeCount: nat := 24

  /** The underlying value of an enumerator, in declaration order. */
  function Ordinal(t: DefectType): (n: nat)
    ensures n < DefectTypeCount
    ensures n == DefectTypeCount - 1 <==> t == Default
  {
    match t
    case Seam => 0
    case HangingString => 1
    case Dissection => 2
    case Blisna => 3
    case ThreadSpan => 4
    case DoubleThreadY => 5
    case DoubleThreadX => 6
    case ViolationOfWeaving => 7
    case StuffedFluff => 8
    case LightStrip => 9
    case Fold => 10
    case Crease => 11
    case WaterLeak => 12
    case Spot => 13
    case Contamination => 14
    case Knot => 15
    case Thickening => 16
    case ThreadThickeningY => 17
    case ThreadThickeningX => 18
    case DifferentThreadY => 19
    case DifferentThreadX => 20
    case IncompleteDoubleThread => 21
    case SparseThread => 22
    case Default => 23
  }

  /** The enumerator with a given underlying value, if there is one. */
  function FromOrdinal(n: int): (t: Option<DefectType>)
    ensures t.Some? <==> 0 <= n < DefectTypeCount
  {
    if n == 0 then Some(Seam)
    else if n == 1 then Some(HangingString)
    else if n == 2 then Some(Dissection)
    else if n == 3 then Some(Blisna)
    else if n == 4 then Some(ThreadSpan)
    else if n == 5 then Some(DoubleThreadY)
    else if n == 6 then Some(DoubleThreadX)
    else if n == 7 then Some(ViolationOfWeaving)
    else if n == 8 then Some(StuffedFluff)
    else if n == 9 then Some(LightStrip)
    else if n == 10 then Some(Fold)
    else if n == 11 then Some(Crease)
    else if n == 12 then Some(WaterLeak)
    else if n == 13 then Some(Spot)
    else if n == 14 then Some(Contamination)
    else if n == 15 then Some(Knot)
    else if n == 16 then Some(Thickening)
    else if n == 17 then Some(ThreadThickeningY)
    else if n == 18 then Some(ThreadThickeningX)
    else if n == 19 then Some(DifferentThreadY)
    else if n == 20 then Some(DifferentThreadX)
    else if n == 21 then Some(IncompleteDoubleThread)
    else if n == 22 then Some(SparseThread)
    else if n == 23 then Some(Default)
    else None
  }

  /** Ordinals and enumerators are in one-to-one correspondence:
      the enumeration is closed and has no gaps. */
  lemma OrdinalRoundTrip(t: DefectType, n: int)
    ensures FromOrdinal(Ordinal(t)) == Some(t)
    ensures 0 <= n < DefectTypeCount ==> Ordinal(FromOrdinal(n).value) == n
  {
  }

  datatype Option<T> = None | Some(value: T)

  /** Integer helpers for rectangle arithmetic. */
  function Abs(n: int): nat { if n < 0 then -n else n }
  function Min(a: int, b: int): int { if a <= b then a else b }
  function Max(a: int, b: int): int { if a >= b then a else b }

  /** An integer rectangle: (x, y) is the top-left corner in whole-image
      pixels, width and height are its extents. */
  datatype Rect = Rect(x: int, y: int, width: int, height: int)
  {
    /** The first column to the right of the rectangle. */
    function Right(): int { x + width }
    /** The first row below the rectangle. */
    function Bottom(): int { y + height }
  }

  /** A single-channel 8-bit raster of rows x cols pixels, row-major. */
  datatype Mask = Mask(rows: nat, cols: nat, px: seq<seq<uint8>>)
  {
    /** The pixel rows really have the stated dimensions. */
    predicate Shaped()
    {
      |px| == rows && forall i :: 0 <= i < |px| ==> |px[i]| == cols
    }

    /** Every pixel is white (defect) or black (not defect). */
    predicate Binary()
      requires Shaped()
    {
      forall i, j :: 0 <= i < rows && 0 <= j < cols ==> px[i][j] == Black || px[i][j] == White
    }
  }

  /** One detected defect. */
  datatype DetectResult = DetectResult(rect: Rect, prob: real, mask: Mask, klass: int)

  /** The detections found on one batch (tile) of the image; batchRect is
      in whole-image coordinates and detects keeps the detector's order. */
  datatype BatchResult = BatchResult(batchRect: Rect, detects: seq<DetectResult>)

  /** The shape invariant of a detection: non-negative extents and a mask
      of exactly the rectangle's size. */
  predicate WellFormed(d: DetectResult)
  {
    d.rect.width >= 0 && d.rect.height >= 0 &&
    d.mask.Shaped() && d.mask.cols == d.rect.width && d.mask.rows == d.rect.height
  }

  /** The mask of a well-formed detection covers its rectangle exactly:
      image pixel (col, row) has a mask pixel, at (row - y, col - x), just
      when it lies inside the rectangle. */
  lemma MaskCoversRect(d: DetectResult, col: int, row: int)
    requires WellFormed(d)
    ensures (0 <= row - d.rect.y < |d.mask.px| && 0 <= col - d.rect.x < |d.mask.px[row - d.rect.y]|) <==>
      (d.rect.x <= col < d.rect.Right() && d.rect.y <= row < d.rect.Bottom())
  {
  }

  /** The full documented invariant of a detection: well-formed, a
      confidence between 0.0 and 1.0, and a binary mask. */
  predicate Valid(d: DetectResult)
  {
    WellFormed(d) && 0.0 <= d.prob <= 1.0 && d.mask.Binary()
  }

  /** Every detection of a list is well-formed. */
  predicate AllWellFormed(ds: seq<DetectResult>)
  {
    forall k :: 0 <= k < |ds| ==> WellFormed(ds[k])
  }

  /** Every detection of every batch of a grid row is well-formed. */
  predicate RowWellFormed(row: seq<BatchResult>)
  {
    forall j :: 0 <= j < |row| ==> AllWellFormed(row[j].detects)
  }

  /** Every detection of every batch of a grid is well-formed. */
  predicate GridWellFormed(grid: seq<seq<BatchResult>>)
  {
    forall i :: 0 <= i < |grid| ==> RowWellFormed(grid[i])
  }

  /** Every detection of a list is valid. */
  predicate AllValid(ds: seq<DetectResult>)
  {
    forall k :: 0 <= k < |ds| ==> Valid(ds[k])
  }

  /** Every detection of every batch of a grid row is valid. */
  predicate RowValid(row: seq<BatchResult>)
  {
    forall j :: 0 <= j < |row| ==> AllValid(row[j].detects)
  }

  /** Every detection of every batch of a grid is valid. */
  predicate GridValid(grid: seq<seq<BatchResult>>)
  {
    forall i :: 0 <= i < |grid| ==> RowValid(grid[i])
  }
}
