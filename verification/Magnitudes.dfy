/** Gradient magnitudes: the saturating sum of the absolute gradients, cleared up to the lower threshold, in a plane
    padded for non-maxima suppression. */
module Magnitudes {
  import opened Basics
  import opened Images
  import opened Buffers
  import opened Gradients
  import opened DirectionalMasking
  import opened NonMaxima

  // --- One element ------------------------------------------------------------------------------

  // vqabsq_s16: the most negative value saturates.
  function SaturatingAbs(x: Int16): Int16 {
    if x == MIN_INT16 then MAX_INT16 else if x < 0 then -x else x
  }

  // vector_path on one lane: the sum is masked by its comparison with the threshold.
  function VectorMagnitude(gx: Int16, gy: Int16, low: Int16): Int16 {
    var sum := SaturatingAdd(SaturatingAbs(gx), SaturatingAbs(gy));
    var mask := Flag(sum > low);
    Keep(sum, mask, mask)
  }

  // scalar_path: the sum is replaced by the largest value when it overflows.
  function ScalarMagnitude(gx: Int16, gy: Int16, low: Int16): Int16 {
    var sum := SaturatingAbs(gx) + SaturatingAbs(gy);
    var magnitude := if sum > MAX_INT16 then MAX_INT16 else sum;
    if magnitude > low then magnitude else 0
  }

  // Both paths give |gx| + |gy|, limited to 16 bits, where it exceeds the threshold.
  lemma MagnitudeIs(gx: Int16, gy: Int16, low: Int16)
    ensures VectorMagnitude(gx, gy, low) == ScalarMagnitude(gx, gy, low)
    ensures 0 <= VectorMagnitude(gx, gy, low)
    ensures VectorMagnitude(gx, gy, low)
         == if Min(Abs(gx) + Abs(gy), MAX_INT16) > low then Min(Abs(gx) + Abs(gy), MAX_INT16) else 0
  {
  }

  // --- The padded plane -------------------------------------------------------------------------

  const PADDING: Margin := Margin(8, 1, 8, 1)

  // The magnitudes of a plane come from its gradients, and the padding has none.
  ghost predicate AreMagnitudes(p: Planes, low: Int16) {
    && p.Valid()
    && (forall y: nat, x: nat | y < p.height && x < p.width ::
          && PixelAt(0, p.width, y, x) < |p.gx|
          && p.Magnitude(y, x)
              == VectorMagnitude(p.gx[PixelAt(0, p.width, y, x)], p.gy[PixelAt(0, p.width, y, x)], low))
    && (forall y: nat, x: nat | y < p.height + 2 && x < p.width + 16 && IsPadding(p.width, p.height, y, x) ::
          p.Padded(y, x) == 0)
  }

  predicate IsPadding(width: nat, height: nat, y: nat, x: nat) {
    !IsInterior(width + 16, height + 2, PADDING, y, x)
  }

  // What the buffer holds before pixel (y, x) is computed.
  ghost predicate Computed(gx: seq<Int16>, gy: seq<Int16>, buffer: seq<Int16>, width: nat, height: nat, low: Int16,
                           row: nat, column: nat)
  {
    && |gx| == |gy| == RowStart(0, width, height) && |buffer| == RowStart(0, width + 16, height + 2)
    && (forall y: nat, x: nat | y < height && x < width && IsEarlier(y, x, row, column) ::
          IsComputed(gx, gy, buffer, width, low, y, x))
    && (forall y: nat, x: nat | y < height + 2 && x < width + 16 && IsPadding(width, height, y, x) ::
          PixelAt(0, width + 16, y, x) < |buffer| && buffer[PixelAt(0, width + 16, y, x)] == 0)
  }

  predicate IsComputed(gx: seq<Int16>, gy: seq<Int16>, buffer: seq<Int16>, width: nat, low: Int16, y: nat, x: nat) {
    var from, to := PixelAt(0, width, y, x), PixelAt(0, width + 16, y + 1, x + 8);
    from < |gx| && from < |gy| && to < |buffer| && buffer[to] == VectorMagnitude(gx[from], gy[from], low)
  }

  lemma ComputeOne(gx: seq<Int16>, gy: seq<Int16>, buffer: seq<Int16>, width: nat, height: nat, low: Int16,
                   row: nat, column: nat)
    requires Computed(gx, gy, buffer, width, height, low, row, column) && row < height && column < width
    ensures PixelAt(0, width, row, column) < |gx| && PixelAt(0, width + 16, row + 1, column + 8) < |buffer|
    ensures var from, to := PixelAt(0, width, row, column), PixelAt(0, width + 16, row + 1, column + 8);
            Computed(gx, gy, buffer[to := VectorMagnitude(gx[from], gy[from], low)], width, height, low,
                     row, column + 1)
  {
    hide RowStart, PixelAt, VectorMagnitude;
    InPlane(row, column, width, height);
    InPlane(row + 1, column + 8, width + 16, height + 2);
    var from, to := PixelAt(0, width, row, column), PixelAt(0, width + 16, row + 1, column + 8);
    var buffer' := buffer[to := VectorMagnitude(gx[from], gy[from], low)];
    forall y: nat, x: nat | y < height && x < width && IsEarlier(y, x, row, column + 1)
      ensures IsComputed(gx, gy, buffer', width, low, y, x)
    {
      PositionsInOrder(width + 16, y + 1, x + 8, row + 1, column + 8);
      if IsEarlier(y, x, row, column) {
        assert IsComputed(gx, gy, buffer, width, low, y, x);
      }
    }
    forall y: nat, x: nat | y < height + 2 && x < width + 16 && IsPadding(width, height, y, x)
      ensures PixelAt(0, width + 16, y, x) < |buffer'| && buffer'[PixelAt(0, width + 16, y, x)] == 0
    {
      PositionsInOrder(width + 16, y, x, row + 1, column + 8);
    }
  }

  lemma ComputedAll(gx: seq<Int16>, gy: seq<Int16>, buffer: seq<Int16>, width: nat, height: nat, low: Int16)
    requires Computed(gx, gy, buffer, width, height, low, height, 0)
    ensures AreMagnitudes(Planes(gx, gy, buffer, width, height), low)
  {
    hide RowStart, VectorMagnitude;
    var p := Planes(gx, gy, buffer, width, height);
    forall y: nat, x: nat | y < height && x < width
      ensures PixelAt(0, width, y, x) < |gx|
      ensures p.Magnitude(y, x) == VectorMagnitude(gx[PixelAt(0, width, y, x)], gy[PixelAt(0, width, y, x)], low)
    {
      assert IsComputed(gx, gy, buffer, width, low, y, x);
    }
  }

  // kleidicv_saturating_add_abs_with_threshold_s16 into the interior of a new magnitude buffer.
  method ComputeMagnitudes(gx: seq<Int16>, gy: seq<Int16>, width: nat, height: nat, low: Int16, memoryLeft: bool)
    returns (planes: Option<Planes>)
    requires |gx| == |gy| == RowStart(0, width, height)
    ensures planes.Some? <==> memoryLeft
    ensures planes.Some? ==>
              && planes.value == Planes(gx, gy, planes.value.magnitudes, width, height)
              && AreMagnitudes(planes.value, low)
  {
    hide RowStart, VectorMagnitude, AreMagnitudes;
    var buffer := NewBuffer<Int16>(0, width, height, PADDING, memoryLeft);
    if buffer == null {
      return None;
    }
    for row := 0 to height
      invariant Computed(gx, gy, buffer[..], width, height, low, row, 0)
    {
      for column := 0 to width
        invariant Computed(gx, gy, buffer[..], width, height, low, row, column)
      {
        ComputeOne(gx, gy, buffer[..], width, height, low, row, column);
        var from, to := PixelAt(0, width, row, column), PixelAt(0, width + 16, row + 1, column + 8);
        ghost var was := buffer[..];
        buffer[to] := VectorMagnitude(gx[from], gy[from], low);
        assert buffer[..] == was[to := VectorMagnitude(gx[from], gy[from], low)];
      }
    }
    ComputedAll(gx, gy, buffer[..], width, height, low);
    planes := Some(Planes(gx, gy, buffer[..], width, height));
  }

  // --- Images of bytes --------------------------------------------------------------------------

  predicate AreSobelGradients(p: Planes) {
    && (forall i :: 0 <= i < |p.gx| ==> Abs(p.gx[i]) <= MAX_SOBEL)
    && (forall i :: 0 <= i < |p.gy| ==> Abs(p.gy[i]) <= MAX_SOBEL)
  }

  // On gradients of byte images nothing overflows: every direction is the category of the exact ratio, and the pass
  // computes the scalar rule for every pixel, for both settings and every threshold that is not negative.
  lemma RuleOnByteImages(p: Planes, y: nat, x: nat, conformOpenCv: bool, low: Int16, high: Int16)
    requires p.width % 8 == 0 && AreMagnitudes(p, low) && AreSobelGradients(p) && high >= 0
    requires y < p.height && x < p.width
    ensures PixelAt(0, p.width, y, x) < |p.gx|
    ensures p.Direction(y, x) == Category(p.gx[PixelAt(0, p.width, y, x)], p.gy[PixelAt(0, p.width, y, x)])
    ensures Suppressed(p, y, x, conformOpenCv, high) == RuleAt(p, y, x, conformOpenCv, high)
  {
    hide Classify, Category, Suppressed, Planes.NeighbourBefore, Planes.NeighbourAfter, Planes.IsStrictAfter, EdgeRule,
         VectorMagnitude;
    var at := PixelAt(0, p.width, y, x);
    InPlane(y, x, p.width, p.height);
    ClassificationIsExact(p.gx[at], p.gy[at]);
    MagnitudeIs(p.gx[at], p.gy[at], low);
    assert p.Magnitude(y, x) <= 2 * MAX_SOBEL;
    SuppressedIsRule(p, y, x, conformOpenCv, high);
  }
}
