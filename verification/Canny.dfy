/** The Canny pipeline after the derivatives: margins, non-maxima suppression, hysteresis and the final threshold,
    and its meaning on the image plane. */
module Canny {
  import opened Basics
  import opened Images
  import opened Buffers
  import opened Gradients
  import opened NonMaxima
  import opened Magnitudes
  import opened Hysteresis

  // --- Connected edges on the plane -------------------------------------------------------------

  /** What decides the classes of pixels. */
  datatype Setting = Setting(p: Planes, conformOpenCv: bool, high: Int16) {
    predicate Valid() {
      p.Valid() && p.width % 8 == 0
    }

    function Class(y: nat, x: nat): Byte
      requires Valid() && y < p.height && x < p.width
    {
      Suppressed(p, y, x, conformOpenCv, high)
    }
  }

  /** A pixel's coordinates. */
  datatype Pixel = Pixel(y: nat, x: nat)

  // Two different pixels that touch, possibly at a corner.
  predicate Touch(a: Pixel, b: Pixel) {
    && a != b
    && -1 <= b.y - a.y <= 1
    && -1 <= b.x - a.x <= 1
  }

  // A path from a strong pixel over weak pixels, each touching the one before.
  ghost predicate IsEdgePath(s: Setting, path: seq<Pixel>)
    requires s.Valid()
  {
    && path != []
    && (forall i :: 0 <= i < |path| ==>
          && path[i].y < s.p.height && path[i].x < s.p.width
          && s.Class(path[i].y, path[i].x) == if i == 0 then STRONG else WEAK)
    && (forall i :: 1 <= i < |path| ==> Touch(path[i - 1], path[i]))
  }

  ghost predicate IsConnectedEdge(s: Setting, y: nat, x: nat)
    requires s.Valid()
  {
    exists path :: IsEdgePath(s, path) && path[|path| - 1] == Pixel(y, x)
  }

  // --- The plane and the padded buffer ----------------------------------------------------------

  // The buffer holds the classes, and its margin is clear.
  ghost predicate Holds(s: Setting, img: seq<Byte>)
    requires s.Valid()
  {
    && MarginIsClear(img, s.p.width, s.p.height)
    && forall y: nat, x: nat | y < s.p.height && x < s.p.width ::
         Position(s.p.width, y, x) < |img| && img[Position(s.p.width, y, x)] == s.Class(y, x)
  }

  // Touching pixels are neighbouring cells, and the other way round: rows of the buffer are two cells wider than
  // the image, so no neighbour wraps around.
  lemma TouchIsNeighbour(width: nat, a: Pixel, b: Pixel)
    requires a.x < width && b.x < width
    ensures Touch(a, b) <==> IsNeighbour(width + 2, Position(width, a.y, a.x), Position(width, b.y, b.x))
  {
    var stride := width + 2;
    var p, q := Position(width, a.y, a.x), Position(width, b.y, b.x);
    CellsAround(stride, a.y, a.x, p);
    hide RowStart, PixelAt;
    CellsOfRow(stride, a.y, a.x, b.y + 1, b.x + 1);
    CellsOfRow(stride, a.y + 1, a.x, b.y + 1, b.x + 1);
    CellsOfRow(stride, a.y + 2, a.x, b.y + 1, b.x + 1);
  }

  lemma CellsAround(stride: nat, y: nat, x: nat, p: nat)
    requires p == PixelAt(0, stride, y + 1, x + 1)
    ensures PixelAt(0, stride, y, x) == p - stride - 1
    ensures PixelAt(0, stride, y, x + 1) == p - stride
    ensures PixelAt(0, stride, y, x + 2) == p - stride + 1
    ensures PixelAt(0, stride, y + 1, x) == p - 1
    ensures PixelAt(0, stride, y + 1, x + 2) == p + 1
    ensures PixelAt(0, stride, y + 2, x) == p + stride - 1
    ensures PixelAt(0, stride, y + 2, x + 1) == p + stride
    ensures PixelAt(0, stride, y + 2, x + 2) == p + stride + 1
  {
    assert RowStart(0, stride, y + 1) == RowStart(0, stride, y) + stride;
    assert RowStart(0, stride, y + 2) == RowStart(0, stride, y + 1) + stride;
  }

  lemma CellsOfRow(stride: nat, row: nat, column: nat, y: nat, x: nat)
    requires column + 2 < stride && x < stride
    ensures PixelAt(0, stride, row, column) == PixelAt(0, stride, y, x) <==> row == y && column == x
    ensures PixelAt(0, stride, row, column + 1) == PixelAt(0, stride, y, x) <==> row == y && column + 1 == x
    ensures PixelAt(0, stride, row, column + 2) == PixelAt(0, stride, y, x) <==> row == y && column + 2 == x
  {
    hide PixelAt;
    PositionsInOrder(stride, row, column, y, x);
    PositionsInOrder(stride, row, column + 1, y, x);
    PositionsInOrder(stride, row, column + 2, y, x);
  }

  function Cells(width: nat, path: seq<Pixel>): (cells: seq<int>)
    ensures |cells| == |path|
  {
    seq(|path|, i requires 0 <= i < |path| => Position(width, path[i].y, path[i].x))
  }

  lemma PathIsChain(s: Setting, img: seq<Byte>, path: seq<Pixel>)
    requires s.Valid() && Holds(s, img) && IsEdgePath(s, path)
    ensures IsChain(img, s.p.width + 2, Cells(s.p.width, path))
  {
    hide Position, Setting.Class, IsNeighbour, Touch;
    var cells := Cells(s.p.width, path);
    forall i | 1 <= i < |cells| ensures IsNeighbour(s.p.width + 2, cells[i - 1], cells[i]) {
      TouchIsNeighbour(s.p.width, path[i - 1], path[i]);
    }
  }

  lemma EdgeCellIsPixel(s: Setting, img: seq<Byte>, cell: int) returns (pixel: Pixel)
    requires s.Valid() && Holds(s, img) && 0 <= cell < |img| && img[cell] != 0
    ensures pixel.y < s.p.height && pixel.x < s.p.width && Position(s.p.width, pixel.y, pixel.x) == cell
    ensures s.Class(pixel.y, pixel.x) == img[cell]
  {
    var y, x := CoordinatesOf(cell, s.p.width + 2, s.p.height + 2);
    assert !OnMargin(s.p.width, s.p.height, y, x);
    pixel := Pixel(y - 1, x - 1);
  }

  lemma {:induction false} ChainIsPath(s: Setting, img: seq<Byte>, cells: seq<int>) returns (path: seq<Pixel>)
    requires s.Valid() && Holds(s, img) && IsChain(img, s.p.width + 2, cells)
    ensures IsEdgePath(s, path) && Cells(s.p.width, path) == cells
  {
    hide Position, Setting.Class, IsNeighbour, Touch;
    var n := |cells| - 1;
    var last := EdgeCellIsPixel(s, img, cells[n]);
    if n == 0 {
      path := [last];
    } else {
      var front := cells[..n];
      assert IsChain(img, s.p.width + 2, front);
      var before := ChainIsPath(s, img, front);
      assert Cells(s.p.width, before)[n - 1] == cells[n - 1];
      TouchIsNeighbour(s.p.width, before[n - 1], last);
      path := before + [last];
    }
  }

  // A chain that ends in the cell of a pixel is a path to that pixel.
  lemma ChainToPixel(s: Setting, img: seq<Byte>, cells: seq<int>, y: nat, x: nat) returns (path: seq<Pixel>)
    requires s.Valid() && Holds(s, img) && y < s.p.height && x < s.p.width
    requires IsChain(img, s.p.width + 2, cells) && cells[|cells| - 1] == Position(s.p.width, y, x)
    ensures IsEdgePath(s, path) && path[|path| - 1] == Pixel(y, x)
  {
    hide Setting.Class, IsNeighbour, Touch, Holds;
    path := ChainIsPath(s, img, cells);
    var last := path[|path| - 1];
    assert Cells(s.p.width, path)[|path| - 1] == Position(s.p.width, last.y, last.x);
    PositionsInOrder(s.p.width + 2, last.y + 1, last.x + 1, y + 1, x + 1);
  }

  // Reachability in the buffer is reachability on the plane.
  lemma ConnectedOnPlane(s: Setting, img: seq<Byte>, y: nat, x: nat)
    requires s.Valid() && Holds(s, img) && y < s.p.height && x < s.p.width
    ensures Connected(img, s.p.width + 2, Position(s.p.width, y, x)) <==> IsConnectedEdge(s, y, x)
  {
    hide Setting.Class, IsNeighbour, Touch, Holds, Position;
    var stride, cell := s.p.width + 2, Position(s.p.width, y, x);
    if Connected(img, stride, cell) {
      var cells :| IsChain(img, stride, cells) && cells[|cells| - 1] == cell;
      var path := ChainToPixel(s, img, cells, y, x);
    }
    if IsConnectedEdge(s, y, x) {
      var path :| IsEdgePath(s, path) && path[|path| - 1] == Pixel(y, x);
      PathIsChain(s, img, path);
      assert Cells(s.p.width, path)[|path| - 1] == cell;
    }
  }

  // --- The pipeline -----------------------------------------------------------------------------

  // kleidicv_threshold_binary_u8 on one value
  function Threshold(x: Byte, threshold: Byte, value: Byte): Byte {
    if x > threshold then value else 0
  }

  lemma ClassValues(s: Setting, y: nat, x: nat)
    requires s.Valid() && y < s.p.height && x < s.p.width
    ensures s.Class(y, x) == 0 || s.Class(y, x) == WEAK || s.Class(y, x) == STRONG
  {
    hide Planes.Magnitude, Planes.NeighbourBefore, Planes.NeighbourAfter, Planes.IsStrictAfter, Planes.IsNullGroup;
  }

  lemma FinalThreshold(s: Setting, img: seq<Byte>, filled: seq<Byte>, y: nat, x: nat)
    requires s.Valid() && Holds(s, img) && y < s.p.height && x < s.p.width
    requires IsHysteresisOf(img, filled, s.p.width + 2)
    ensures Position(s.p.width, y, x) < |filled|
    ensures Threshold(filled[Position(s.p.width, y, x)], 0x80, 0xFF) == if IsConnectedEdge(s, y, x) then 255 else 0
  {
    hide Setting.Class, Setting.Valid, Position, IsConnectedEdge, Connected;
    ConnectedOnPlane(s, img, y, x);
    ClassValues(s, y, x);
    var cell := Position(s.p.width, y, x);
    if img[cell] == STRONG {
      StrongIsConnected(img, s.p.width + 2, cell);
    }
  }

  // The memory covers the destination, and rows do not overlap. A single row may have any stride.
  predicate IsDestination(size: nat, stride: nat, width: nat, height: nat) {
    Covers(size, 0, stride, width, height) && (height > 1 ==> width <= stride)
  }

  // The cell of a destination pixel; no other cell of the destination is written.
  ghost predicate IsPixelCell(stride: nat, width: nat, height: nat, cell: int) {
    exists y: nat, x: nat :: y < height && x < width && PixelAt(0, stride, y, x) == cell
  }

  lemma CellsApart(size: nat, stride: nat, width: nat, height: nat, y: nat, x: nat, row: nat, column: nat)
    requires IsDestination(size, stride, width, height) && row < height && column < width && x < width
    requires IsEarlier(y, x, row, column)
    ensures PixelAt(0, stride, y, x) < PixelAt(0, stride, row, column)
  {
    if y < row {
      PositionsInOrder(stride, y, x, row, column);
    }
  }

  // The last step: the interior of the hysteresis buffer is thresholded into the destination.
  method WriteEdges(s: Setting, img: array<Byte>, dst: array<Byte>, dstStride: nat, width: nat,
                    ghost classes: seq<Byte>)
    requires s.Valid() && Holds(s, classes) && IsHysteresisOf(classes, img[..], s.p.width + 2)
    requires width <= s.p.width && img != dst && IsDestination(dst.Length, dstStride, width, s.p.height)
    modifies dst
    ensures forall y: nat, x: nat | y < s.p.height && x < width ::
              && PixelAt(0, dstStride, y, x) < dst.Length
              && dst[PixelAt(0, dstStride, y, x)] == if IsConnectedEdge(s, y, x) then 255 else 0
    ensures forall p | 0 <= p < dst.Length && !IsPixelCell(dstStride, width, s.p.height, p) :: dst[p] == old(dst[p])
  {
    hide IsHysteresisOf, Holds, IsConnectedEdge, Setting.Valid, IsPixelCell;
    ghost var filled := img[..];
    for row := 0 to s.p.height
      invariant img[..] == filled
      invariant forall p | 0 <= p < dst.Length && !IsPixelCell(dstStride, width, s.p.height, p) ::
                  dst[p] == old(dst[p])
      invariant forall y: nat, x: nat | y < row && x < width ::
                  && PixelAt(0, dstStride, y, x) < dst.Length
                  && dst[PixelAt(0, dstStride, y, x)] == if IsConnectedEdge(s, y, x) then 255 else 0
    {
      WriteRow(s, img, dst, dstStride, width, classes, row);
    }
  }

  method WriteRow(s: Setting, img: array<Byte>, dst: array<Byte>, dstStride: nat, width: nat, ghost classes: seq<Byte>,
                  row: nat)
    requires s.Valid() && Holds(s, classes) && IsHysteresisOf(classes, img[..], s.p.width + 2)
    requires width <= s.p.width && img != dst && row < s.p.height
    requires IsDestination(dst.Length, dstStride, width, s.p.height)
    requires forall y: nat, x: nat | y < row && x < width ::
               && PixelAt(0, dstStride, y, x) < dst.Length
               && dst[PixelAt(0, dstStride, y, x)] == if IsConnectedEdge(s, y, x) then 255 else 0
    modifies dst
    ensures forall y: nat, x: nat | y < row + 1 && x < width ::
              && PixelAt(0, dstStride, y, x) < dst.Length
              && dst[PixelAt(0, dstStride, y, x)] == if IsConnectedEdge(s, y, x) then 255 else 0
    ensures forall p | 0 <= p < dst.Length && !IsPixelCell(dstStride, width, s.p.height, p) :: dst[p] == old(dst[p])
  {
    hide IsHysteresisOf, Holds, IsConnectedEdge, Setting.Valid, RowStart;
    ghost var filled := img[..];
    for column := 0 to width
      invariant img[..] == filled
      invariant forall p | 0 <= p < dst.Length && !IsPixelCell(dstStride, width, s.p.height, p) ::
                  dst[p] == old(dst[p])
      invariant forall y: nat, x: nat | y <= row && x < width && IsEarlier(y, x, row, column) ::
                  && PixelAt(0, dstStride, y, x) < dst.Length
                  && dst[PixelAt(0, dstStride, y, x)] == if IsConnectedEdge(s, y, x) then 255 else 0
    {
      FinalThreshold(s, classes, filled, row, column);
      PixelInBounds(dst.Length, 0, dstStride, width, s.p.height, row, column);
      forall y: nat, x: nat | y <= row && x < width && IsEarlier(y, x, row, column)
        ensures PixelAt(0, dstStride, y, x) < PixelAt(0, dstStride, row, column)
      {
        CellsApart(dst.Length, dstStride, width, s.p.height, y, x, row, column);
      }
      assert IsPixelCell(dstStride, width, s.p.height, PixelAt(0, dstStride, row, column));
      dst[PixelAt(0, dstStride, row, column)] := Threshold(img[Position(s.p.width, row, column)], 0x80, 0xFF);
    }
  }

  // canny_u8 after the magnitudes are computed. The planes are as wide as the image aligned up to eight lanes;
  // memoryLeft tells whether the buffer can be allocated. A destination pixel is 255 exactly if it is a connected edge.
  method DetectEdges(s: Setting, dst: array<Byte>, dstStride: nat, width: nat, memoryLeft: bool) returns (error: Error)
    requires s.Valid() && width <= s.p.width && IsDestination(dst.Length, dstStride, width, s.p.height)
    modifies dst
    ensures error == if memoryLeft then Ok else Allocation
    ensures error != Ok ==> dst[..] == old(dst[..])
    ensures forall p | 0 <= p < dst.Length && !IsPixelCell(dstStride, width, s.p.height, p) :: dst[p] == old(dst[p])
    ensures error == Ok ==>
              forall y: nat, x: nat | y < s.p.height && x < width ::
                && PixelAt(0, dstStride, y, x) < dst.Length
                && dst[PixelAt(0, dstStride, y, x)] == if IsConnectedEdge(s, y, x) then 255 else 0
  {
    hide IsDestination, IsConnectedEdge, IsHysteresisOf, BandIsClear, StackIsStrong, RowStart, IsInterior, IsPixelCell;
    var hysteresis := NewBuffer<Byte>(0, s.p.width, s.p.height, Margin(1, 1, 1, 1), memoryLeft);
    if hysteresis == null {
      return Allocation;
    }
    var strong := SuppressNonMaxima(s.p, hysteresis, s.conformOpenCv, s.high);
    ghost var classes := hysteresis[..];
    ReadyForHysteresis(s.p, classes, strong, s.conformOpenCv, s.high);
    ghost var iterations := PerformHysteresis(hysteresis, strong, s.p.width + 2);
    WriteEdges(s, hysteresis, dst, dstStride, width, classes);
    error := Ok;
  }

  // --- From gradients to edges ------------------------------------------------------------------

  // The columns that only align the width have no gradient.
  predicate IsFlatFrom(gx: seq<Int16>, gy: seq<Int16>, alignedWidth: nat, height: nat, width: nat) {
    && |gx| == |gy| == RowStart(0, alignedWidth, height)
    && forall y: nat, x: nat | y < height && width <= x < alignedWidth ::
         && PixelAt(0, alignedWidth, y, x) < |gx|
         && gx[PixelAt(0, alignedWidth, y, x)] == gy[PixelAt(0, alignedWidth, y, x)] == 0
  }

  predicate StaysWithin(path: seq<Pixel>, width: nat) {
    forall i :: 0 <= i < |path| ==> path[i].x < width
  }

  // No edge leads through the alignment columns: what they add to the image does not connect anything.
  lemma PathStaysInImage(s: Setting, low: Int16, width: nat, path: seq<Pixel>)
    requires s.Valid() && s.high >= 0 && AreMagnitudes(s.p, low)
    requires IsFlatFrom(s.p.gx, s.p.gy, s.p.width, s.p.height, width)
    requires IsEdgePath(s, path)
    ensures StaysWithin(path, width)
  {
    hide Suppressed, VectorMagnitude, Planes.Magnitude, RowStart;
    forall i | 0 <= i < |path| ensures path[i].x < width {
      var y, x := path[i].y, path[i].x;
      if x >= width {
        var at := PixelAt(0, s.p.width, y, x);
        MagnitudeIs(s.p.gx[at], s.p.gy[at], low);
        NoMagnitudeNoEdge(s.p, y, x, s.conformOpenCv, s.high);
      }
    }
  }

  // canny_u8 on its gradients: magnitudes above the lower threshold, suppression, hysteresis and the final threshold.
  // The setting that the result is about is known to the proof only.
  method DetectEdgesOf(gx: seq<Int16>, gy: seq<Int16>, alignedWidth: nat, height: nat, width: nat,
                       low: Int16, high: Int16, conformOpenCv: bool, dst: array<Byte>, dstStride: nat,
                       memoryForMagnitudes: bool, memoryForHysteresis: bool)
    returns (error: Error, ghost s: Setting)
    requires alignedWidth % 8 == 0 && width <= alignedWidth && IsFlatFrom(gx, gy, alignedWidth, height, width)
    requires IsDestination(dst.Length, dstStride, width, height)
    modifies dst
    ensures error == if memoryForMagnitudes && memoryForHysteresis then Ok else Allocation
    ensures error != Ok ==> dst[..] == old(dst[..])
    ensures forall p | 0 <= p < dst.Length && !IsPixelCell(dstStride, width, height, p) :: dst[p] == old(dst[p])
    ensures error == Ok ==>
              && s == Setting(Planes(gx, gy, s.p.magnitudes, alignedWidth, height), conformOpenCv, high)
              && s.Valid() && AreMagnitudes(s.p, low)
              && forall y: nat, x: nat | y < height && x < width ::
                   && PixelAt(0, dstStride, y, x) < dst.Length
                   && dst[PixelAt(0, dstStride, y, x)] == if IsConnectedEdge(s, y, x) then 255 else 0
    ensures error == Ok && high >= 0 ==> forall path :: IsEdgePath(s, path) ==> StaysWithin(path, width)
  {
    hide IsEdgePath, IsConnectedEdge, RowStart, PixelAt, IsPixelCell;
    var planes := ComputeMagnitudes(gx, gy, alignedWidth, height, low, memoryForMagnitudes);
    if planes.None? {
      return Allocation, Setting(Planes([], [], [], 0, 0), conformOpenCv, high);
    }
    var setting := Setting(planes.value, conformOpenCv, high);
    s := setting;
    error := DetectEdges(setting, dst, dstStride, width, memoryForHysteresis);
    if high >= 0 {
      forall path | IsEdgePath(s, path) ensures StaysWithin(path, width) {
        PathStaysInImage(s, low, width, path);
      }
    }
  }
}
