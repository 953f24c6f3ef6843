/** Canny edges of an image of bytes: derivatives, thresholds, and what every pixel of the result means. */
module CannyOfBytes {
  import opened Basics
  import opened Images
  import opened Buffers
  import opened DirectionalMasking
  import opened Gradients
  import opened NonMaxima
  import opened Magnitudes
  import opened Hysteresis
  import opened Sobel
  import opened Canny

  // --- Edges by the scalar rule -----------------------------------------------------------------

  // A path from a pixel that the scalar rule makes strong over pixels that it makes weak.
  ghost predicate IsRulePath(s: Setting, path: seq<Pixel>)
    requires s.Valid()
  {
    && path != []
    && (forall i :: 0 <= i < |path| ==>
          && path[i].y < s.p.height && path[i].x < s.p.width
          && RuleAt(s.p, path[i].y, path[i].x, s.conformOpenCv, s.high) == if i == 0 then STRONG else WEAK)
    && (forall i :: 1 <= i < |path| ==> Touch(path[i - 1], path[i]))
  }

  ghost predicate IsEdgeByRule(s: Setting, y: nat, x: nat)
    requires s.Valid()
  {
    exists path :: IsRulePath(s, path) && path[|path| - 1] == Pixel(y, x)
  }

  // On gradients of byte images the two notions of an edge agree.
  lemma EdgesByRule(s: Setting, low: Int16, y: nat, x: nat)
    requires s.Valid() && s.high >= 0 && AreMagnitudes(s.p, low) && AreSobelGradients(s.p)
    ensures IsConnectedEdge(s, y, x) <==> IsEdgeByRule(s, y, x)
  {
    hide Setting.Valid, RuleAt, Touch;
    forall path ensures IsEdgePath(s, path) <==> IsRulePath(s, path) {
      PathsByRule(s, low, path);
    }
  }

  lemma PathsByRule(s: Setting, low: Int16, path: seq<Pixel>)
    requires s.Valid() && s.high >= 0 && AreMagnitudes(s.p, low) && AreSobelGradients(s.p)
    ensures IsEdgePath(s, path) <==> IsRulePath(s, path)
  {
    hide RuleAt, Touch, AreMagnitudes, AreSobelGradients, Suppressed;
    forall i | 0 <= i < |path| && path[i].y < s.p.height && path[i].x < s.p.width
      ensures s.Class(path[i].y, path[i].x) == RuleAt(s.p, path[i].y, path[i].x, s.conformOpenCv, s.high)
    {
      RuleOnByteImages(s.p, path[i].y, path[i].x, s.conformOpenCv, low, s.high);
    }
  }

  // --- From an image to its edges ---------------------------------------------------------------

  // align_up to eight lanes
  function AlignedWidth(width: nat): (aligned: nat)
    ensures aligned % 8 == 0 && width <= aligned < width + 8
  {
    ((width + 7) / 8) * 8
  }

  // The gradients of a plane are the derivatives of the image, and the columns that align the width have none.
  ghost predicate AreGradients(img: Image, p: Planes) {
    && img.Valid() && img.height == p.height && img.width <= p.width
    && IsFlatFrom(p.gx, p.gy, p.width, p.height, img.width)
    && forall y: nat, x: nat | y < img.height && x < img.width ::
         && PixelAt(0, p.width, y, x) < |p.gx|
         && p.gx[PixelAt(0, p.width, y, x)] == img.Gradient(Horizontal, y, x)
         && p.gy[PixelAt(0, p.width, y, x)] == img.Gradient(Vertical, y, x)
  }

  lemma GradientsOfBytes(img: Image, p: Planes)
    requires AreGradients(img, p)
    ensures AreSobelGradients(p)
  {
    hide Image.Gradient, Image.Valid;
    forall i | 0 <= i < |p.gx| ensures Abs(p.gx[i]) <= MAX_SOBEL && Abs(p.gy[i]) <= MAX_SOBEL {
      var y, x := CoordinatesOf(i, p.width, p.height);
      if x < img.width {
        SeparableIsKernel(Horizontal, img, y, x);
        SeparableIsKernel(Vertical, img, y, x);
      }
    }
  }

  // A gradient buffer with its derivatives: the alignment columns, which are its right margin, stay zero.
  lemma GradientsDerived(img: Image, gx0: seq<Int16>, gy0: seq<Int16>, gx: seq<Int16>, gy: seq<Int16>,
                         alignedWidth: nat, magnitudes: seq<Int16>)
    requires img.Valid()
    requires Derived(Horizontal, img, gx0, gx, alignedWidth, img.height, {})
    requires Derived(Vertical, img, gy0, gy, alignedWidth, img.height, {})
    requires forall y: nat, x: nat | y < img.height && img.width <= x < alignedWidth ::
               && PixelAt(0, alignedWidth, y, x) < |gx0| && PixelAt(0, alignedWidth, y, x) < |gy0|
               && gx0[PixelAt(0, alignedWidth, y, x)] == gy0[PixelAt(0, alignedWidth, y, x)] == 0
    ensures AreGradients(img, Planes(gx, gy, magnitudes, alignedWidth, img.height))
  {
    hide Image.Gradient, Image.Valid, RowStart;
  }

  // A buffer with alignment columns as its right margin.
  method NewGradient(width: nat, height: nat, memoryLeft: bool) returns (buffer: array?<Int16>)
    ensures buffer == null <==> !memoryLeft
    ensures memoryLeft ==>
              && fresh(buffer) && buffer.Length == RowStart(0, AlignedWidth(width), height)
              && forall y: nat, x: nat | y < height && width <= x < AlignedWidth(width) ::
                   && PixelAt(0, AlignedWidth(width), y, x) < buffer.Length
                   && buffer[PixelAt(0, AlignedWidth(width), y, x)] == 0
  {
    hide RowStart;
    buffer := NewBuffer<Int16>(0, width, height, Margin(0, 0, AlignedWidth(width) - width, 0), memoryLeft);
  }

  // Conversion of a threshold to an integer truncates towards zero. Comparing a magnitude with the truncated threshold
  // is comparing it with the threshold, except for magnitude zero and thresholds between -1 and 0. Thresholds above -1
  // are not negative once they are truncated.
  lemma TruncatedThreshold(t: real, magnitude: nat, truncated: int)
    requires truncated == if t >= 0.0 then t.Floor else -(-t).Floor
    ensures (magnitude > truncated <==> magnitude as real > t) <==> !(magnitude == 0 && -1.0 < t < 0.0)
    ensures truncated >= 0 <==> t > -1.0
  {
    if t < 0.0 {
      assert (-t).Floor as real <= -t < (-t).Floor as real + 1.0;
    } else {
      assert t.Floor as real <= t < t.Floor as real + 1.0;
    }
  }

  // canny_u8 after the cast of the thresholds. The destination, which may be the source, shows exactly the connected
  // edges; for thresholds that are not negative these are the edges of the scalar rule on the derivatives of the image,
  // and no path between them leaves the image. The setting that the result is about is known to the proof only.
  method DetectEdgesOfBytes(src: array?<Byte>, srcStride: nat, dst: array?<Byte>, dstStride: nat,
                            width: nat, height: nat, low: Int16, high: Int16, conformOpenCv: bool,
                            memoryForBuffers: bool, memoryForSobel: bool)
    returns (error: Error, ghost s: Setting)
    requires src != null ==> Covers(src.Length, 0, srcStride, width, height)
    requires dst != null ==> IsDestination(dst.Length, dstStride, width, height)
    modifies dst
    ensures error == if src == null || dst == null then NullPointer
                     else if !ImageSizeAccepted(width, height) then OutOfRange
                     else if !memoryForBuffers then Allocation
                     else if width < 2 || height < 2 then NotImplemented
                     else if !memoryForSobel then Allocation
                     else if !ImageSizeAccepted(AlignedWidth(width), height) then OutOfRange
                     else Ok
    ensures error != Ok && dst != null ==> dst[..] == old(dst[..])
    ensures error == Ok ==>
              forall p | 0 <= p < dst.Length && !IsPixelCell(dstStride, width, height, p) :: dst[p] == old(dst[p])
    ensures error == Ok ==>
              && s == Setting(s.p, conformOpenCv, high)
              && s.p.width == AlignedWidth(width) && s.p.height == height
              && s.Valid() && AreMagnitudes(s.p, low)
              && AreGradients(Image(old(src[..]), srcStride, width, height), s.p)
    ensures error == Ok ==>
              forall y: nat, x: nat | y < height && x < width ::
                && PixelAt(0, dstStride, y, x) < dst.Length
                && dst[PixelAt(0, dstStride, y, x)] == if IsConnectedEdge(s, y, x) then 255 else 0
    ensures error == Ok && high >= 0 ==>
              forall y: nat, x: nat | y < height && x < width ::
                && PixelAt(0, dstStride, y, x) < dst.Length
                && dst[PixelAt(0, dstStride, y, x)] == if IsEdgeByRule(s, y, x) then 255 else 0
    ensures error == Ok && high >= 0 ==> forall path :: IsEdgePath(s, path) ==> StaysWithin(path, width)
  {
    SizeLimit(width, height);
    hide IsEdgePath, IsConnectedEdge, IsEdgeByRule, RowStart, PixelAt, ImageSizeAccepted, Derived, AlignedWidth, Covers,
         IsPixelCell;
    s := Setting(Planes([], [], [], 0, 0), conformOpenCv, high);
    if src == null || dst == null {
      return NullPointer, s;
    }
    if !ImageSizeAccepted(width, height) {
      return OutOfRange, s;
    }
    if !memoryForBuffers {
      return Allocation, s;
    }
    var gx := NewGradient(width, height, true);
    var gy := NewGradient(width, height, true);
    ghost var img, gx0, gy0 := Image(src[..], srcStride, width, height), gx[..], gy[..];
    error := Derive(Horizontal, src, srcStride, width, height, gx, AlignedWidth(width), memoryForSobel);
    if error != Ok {
      return;
    }
    error := Derive(Vertical, src, srcStride, width, height, gy, AlignedWidth(width), memoryForSobel);
    assert error == Ok;
    if !ImageSizeAccepted(AlignedWidth(width), height) {
      return OutOfRange, s;
    }
    GradientsDerived(img, gx0, gy0, gx[..], gy[..], AlignedWidth(width), []);
    error, s := DetectEdgesOf(gx[..], gy[..], AlignedWidth(width), height, width, low, high, conformOpenCv,
                              dst, dstStride, true, true);
    GradientsDerived(img, gx0, gy0, gx[..], gy[..], AlignedWidth(width), s.p.magnitudes);
    GradientsOfBytes(img, s.p);
    if high >= 0 {
      forall y: nat, x: nat | y < height && x < width ensures IsConnectedEdge(s, y, x) <==> IsEdgeByRule(s, y, x) {
        EdgesByRule(s, low, y, x);
      }
    }
  }

  // --- What every pixel of the result means -----------------------------------------------------

  /** What the stages compute for a row and a column: the source with its border, the derivatives, the magnitudes above
      the lower threshold, the kind of a pixel (255 strong, 1 weak, 0 none), and whether it is an edge. */
  datatype Stages = Stages(pixel: (int, int) -> int, gx: (int, int) -> int, gy: (int, int) -> int,
                           magnitude: (int, int) -> int, kind: (int, int) -> int, edge: (int, int) -> bool)

  // The derivatives of the 3x3 Sobel operator, and none in the columns that align the width.
  predicate AreDerivatives(t: Stages, width: nat, y: int, x: int) {
    && t.gx(y, x) == (if x >= width then 0 else ColumnOf(t, y, x + 1) - ColumnOf(t, y, x - 1))
    && t.gy(y, x) == (if x >= width then 0 else RowOf(t, y + 1, x) - RowOf(t, y - 1, x))
  }

  function ColumnOf(t: Stages, y: int, x: int): int { t.pixel(y - 1, x) + 2 * t.pixel(y, x) + t.pixel(y + 1, x) }

  function RowOf(t: Stages, y: int, x: int): int { t.pixel(y, x - 1) + 2 * t.pixel(y, x) + t.pixel(y, x + 1) }

  // The sum of the absolute derivatives where it exceeds the lower threshold; none outside of the image.
  predicate IsMagnitude(t: Stages, width: nat, height: nat, low: int, y: int, x: int) {
    var sum := Abs(t.gx(y, x)) + Abs(t.gy(y, x));
    t.magnitude(y, x) == if 0 <= y < height && 0 <= x < width && sum > low then sum else 0
  }

  // The step to the pixel after another one along its gradient; the pixel before it is a step the other way.
  function StepAlong(t: Stages, conformOpenCv: bool, y: int, x: int): (int, int) {
    var category := Category(t.gx(y, x), t.gy(y, x));
    if IsHorizontal(category) then (0, 1) else (1, -PrevShift(category, conformOpenCv))
  }

  function RuleOf(t: Stages, conformOpenCv: bool, high: int, y: int, x: int): Byte {
    var (dy, dx) := StepAlong(t, conformOpenCv, y, x);
    EdgeRule(t.magnitude(y, x), t.magnitude(y - dy, x - dx), t.magnitude(y + dy, x + dx),
             conformOpenCv && IsDiagonal(Category(t.gx(y, x), t.gy(y, x))), high)
  }

  // None in groups of eight pixels without magnitude, and the scalar rule elsewhere.
  predicate IsKind(t: Stages, conformOpenCv: bool, high: int, y: int, x: int) {
    t.kind(y, x) == if forall k :: x - x % 8 <= k < x - x % 8 + 8 ==> t.magnitude(y, k) == 0 then 0
                    else RuleOf(t, conformOpenCv, high, y, x)
  }

  // A path from a strong pixel over weak ones.
  predicate IsKindPath(t: Stages, width: nat, height: nat, path: seq<Pixel>) {
    && path != []
    && (forall i :: 0 <= i < |path| ==>
          && path[i].y < height && path[i].x < width
          && t.kind(path[i].y, path[i].x) == if i == 0 then STRONG else WEAK)
    && (forall i :: 1 <= i < |path| ==> Touch(path[i - 1], path[i]))
  }

  // Every stage follows from the one before; the planes are as wide as the image aligned up to eight lanes.
  ghost predicate AreStages(t: Stages, width: nat, height: nat, low: int, high: int, conformOpenCv: bool) {
    && (forall y: nat, x: nat | y < height && x < AlignedWidth(width) :: AreDerivatives(t, width, y, x))
    && (forall y, x | -1 <= y <= height && -1 <= x <= AlignedWidth(width) ::
          IsMagnitude(t, width, height, low, y, x))
    && (forall y: nat, x: nat | y < height && x < AlignedWidth(width) :: IsKind(t, conformOpenCv, high, y, x))
    && (forall y: nat, x: nat | y < height && x < AlignedWidth(width) ::
          t.edge(y, x) <==>
            exists path :: IsKindPath(t, AlignedWidth(width), height, path) && path[|path| - 1] == Pixel(y, x))
  }

  lemma RuleIs(t: Stages, conformOpenCv: bool, high: int, y: int, x: int)
    ensures var gx, gy, m := t.gx(y, x), t.gy(y, x), t.magnitude(y, x);
            var absGx, absGy := if gx < 0 then -gx else gx, if gy < 0 then -gy else gy;
            var horizontal, vertical := 32768 * absGy < 13573 * absGx, 32768 * absGy > 79109 * absGx;
            var dy := if horizontal then 0 else 1;
            var dx := if horizontal then 1 else if vertical then 0
                      else if conformOpenCv == ((gx < 0) == (gy < 0)) then 1 else -1;
            var before, after := t.magnitude(y - dy, x - dx), t.magnitude(y + dy, x + dx);
            var survives := m > before && (m > after || (m == after && !(conformOpenCv && !horizontal && !vertical)));
            RuleOf(t, conformOpenCv, high, y, x) == if (if survives then m else 0) > high then 255
                                                    else if survives && m > 0 then 1 else 0
  {
  }

  // The stages in numbers. A pixel survives if its magnitude exceeds the one before it along its gradient and is not
  // below the one after it; on diagonals in the OpenCV setting it must exceed that, too. Survivors are strong above the
  // upper threshold and otherwise weak.
  lemma StagesMean(t: Stages, width: nat, height: nat, low: int, high: int, conformOpenCv: bool, y: nat, x: nat)
    requires AreStages(t, width, height, low, high, conformOpenCv)
    requires y < height && x < (width + 7) / 8 * 8
    ensures t.gx(y, x)
         == if x >= width then 0
            else (t.pixel(y - 1, x + 1) + 2 * t.pixel(y, x + 1) + t.pixel(y + 1, x + 1))
                   - (t.pixel(y - 1, x - 1) + 2 * t.pixel(y, x - 1) + t.pixel(y + 1, x - 1))
    ensures t.gy(y, x)
         == if x >= width then 0
            else (t.pixel(y + 1, x - 1) + 2 * t.pixel(y + 1, x) + t.pixel(y + 1, x + 1))
                   - (t.pixel(y - 1, x - 1) + 2 * t.pixel(y - 1, x) + t.pixel(y - 1, x + 1))
    ensures var gx, gy, m := t.gx(y, x), t.gy(y, x), t.magnitude(y, x);
            var absGx, absGy := if gx < 0 then -gx else gx, if gy < 0 then -gy else gy;
            var horizontal, vertical := 32768 * absGy < 13573 * absGx, 32768 * absGy > 79109 * absGx;
            var dy := if horizontal then 0 else 1;
            var dx := if horizontal then 1 else if vertical then 0
                      else if conformOpenCv == ((gx < 0) == (gy < 0)) then 1 else -1;
            var before, after := t.magnitude(y - dy, x - dx), t.magnitude(y + dy, x + dx);
            var survives := m > before && (m > after || (m == after && !(conformOpenCv && !horizontal && !vertical)));
            t.kind(y, x) == if forall k :: x - x % 8 <= k < x - x % 8 + 8 ==> t.magnitude(y, k) == 0 then 0
                            else if (if survives then m else 0) > high then 255
                            else if survives && m > 0 then 1 else 0
  {
    assert AreDerivatives(t, width, y, x);
    assert IsKind(t, conformOpenCv, high, y, x);
    RuleIs(t, conformOpenCv, high, y, x);
    hide AreStages, RuleOf;
  }

  // The magnitudes in numbers, also beyond the border, where there are none.
  lemma MagnitudesMean(t: Stages, width: nat, height: nat, low: int, high: int, conformOpenCv: bool, y: int, x: int)
    requires AreStages(t, width, height, low, high, conformOpenCv)
    requires -1 <= y <= height && -1 <= x <= (width + 7) / 8 * 8
    ensures var gx, gy := t.gx(y, x), t.gy(y, x);
            var sum := (if gx < 0 then -gx else gx) + if gy < 0 then -gy else gy;
            t.magnitude(y, x) == if 0 <= y < height && 0 <= x < width && sum > low then sum else 0
  {
    assert IsMagnitude(t, width, height, low, y, x);
  }

  // An edge is where a path from a strong pixel over weak ones ends, from neighbour to neighbour.
  lemma EdgesMean(t: Stages, width: nat, height: nat, low: int, high: int, conformOpenCv: bool, y: nat, x: nat)
    requires AreStages(t, width, height, low, high, conformOpenCv)
    requires y < height && x < width
    ensures t.edge(y, x) <==>
              exists path: seq<Pixel> ::
                && |path| > 0 && path[|path| - 1] == Pixel(y, x)
                && (forall i :: 0 <= i < |path| ==>
                      && path[i].y < height && path[i].x < (width + 7) / 8 * 8
                      && t.kind(path[i].y, path[i].x) == if i == 0 then 255 else 1)
                && forall i :: 1 <= i < |path| ==>
                     && path[i - 1] != path[i]
                     && -1 <= path[i].y - path[i - 1].y <= 1 && -1 <= path[i].x - path[i - 1].x <= 1
  {
    assert t.edge(y, x) <==>
             exists path :: IsKindPath(t, AlignedWidth(width), height, path) && path[|path| - 1] == Pixel(y, x);
    hide AreStages;
    forall path: seq<Pixel>
      ensures IsKindPath(t, AlignedWidth(width), height, path) <==>
                && |path| > 0
                && (forall i :: 0 <= i < |path| ==>
                      && path[i].y < height && path[i].x < (width + 7) / 8 * 8
                      && t.kind(path[i].y, path[i].x) == if i == 0 then 255 else 1)
                && forall i :: 1 <= i < |path| ==>
                     && path[i - 1] != path[i]
                     && -1 <= path[i].y - path[i - 1].y <= 1 && -1 <= path[i].x - path[i - 1].x <= 1
    {
      assert IsKindPath(t, AlignedWidth(width), height, path) ==>
          forall i :: 1 <= i < |path| ==> Touch(path[i - 1], path[i]);
    }
  }

  ghost function StagesOf(img: Image, s: Setting): Stages
    requires img.Valid() && s.Valid()
  {
    Stages((y: int, x: int) => img.At(y, x),
           (y: int, x: int) => GradientAt(s.p, s.p.gx, y, x),
           (y: int, x: int) => GradientAt(s.p, s.p.gy, y, x),
           (y: int, x: int) => if -1 <= y <= s.p.height && -1 <= x <= s.p.width then s.p.Padded(y + 1, x + 8) else 0,
           (y: int, x: int) => if 0 <= y < s.p.height && 0 <= x < s.p.width then s.Class(y, x) else 0,
           (y: int, x: int) => y >= 0 && x >= 0 && IsConnectedEdge(s, y, x))
  }

  ghost function GradientAt(p: Planes, gradient: seq<Int16>, y: int, x: int): int
    requires p.Valid() && |gradient| == |p.gx|
  {
    if 0 <= y < p.height && 0 <= x < p.width then
      InPlane(y, x, p.width, p.height);
      gradient[PixelAt(0, p.width, y, x)]
    else 0
  }

  lemma PixelStage(img: Image, s: Setting, t: Stages, y: int, x: int)
    requires img.Valid() && s.Valid() && t == StagesOf(img, s)
    ensures var row := if y < 0 then 0 else if y < img.height then y else img.height - 1;
            var column := if x < 0 then 0 else if x < img.width then x else img.width - 1;
            && PixelAt(0, img.stride, row, column) < |img.mem|
            && t.pixel(y, x) == img.mem[PixelAt(0, img.stride, row, column)]
  {
    var row := if y < 0 then 0 else if y < img.height then y else img.height - 1;
    var column := if x < 0 then 0 else if x < img.width then x else img.width - 1;
    PixelAtIs(0, img.stride, row, column);
    PixelBeyond(img, y, x, row * img.stride, column);
  }

  lemma DerivativeStage(img: Image, s: Setting, t: Stages, y: nat, x: nat)
    requires s.Valid() && AreGradients(img, s.p) && t == StagesOf(img, s) && y < s.p.height && x < s.p.width
    ensures AreDerivatives(t, img.width, y, x)
  {
    hide Image.At, Image.Valid, RowStart;
  }

  lemma MagnitudeStage(img: Image, s: Setting, t: Stages, low: Int16, y: int, x: int)
    requires s.Valid() && AreGradients(img, s.p) && t == StagesOf(img, s)
    requires AreMagnitudes(s.p, low) && AreSobelGradients(s.p)
    requires -1 <= y <= s.p.height && -1 <= x <= s.p.width
    ensures IsMagnitude(t, img.width, img.height, low, y, x)
  {
    hide RowStart, VectorMagnitude;
    if 0 <= y < s.p.height && 0 <= x < s.p.width {
      var at := PixelAt(0, s.p.width, y, x);
      InPlane(y, x, s.p.width, s.p.height);
      MagnitudeIs(s.p.gx[at], s.p.gy[at], low);
      assert s.p.Magnitude(y, x) == VectorMagnitude(s.p.gx[at], s.p.gy[at], low);
    } else {
      assert IsPadding(s.p.width, s.p.height, y + 1, x + 8);
    }
  }

  lemma KindStage(img: Image, s: Setting, t: Stages, low: Int16, y: nat, x: nat)
    requires s.Valid() && img.Valid() && t == StagesOf(img, s) && AreMagnitudes(s.p, low) && AreSobelGradients(s.p)
    requires y < s.p.height && x < s.p.width
    ensures IsKind(t, s.conformOpenCv, s.high, y, x)
  {
    RuleStage(s, low, y, x);
    GroupStage(img, s, t, y, x);
    SameRule(img, s, t, y, x);
    hide StagesOf, Setting.Class, RuleAt, RuleOf, Planes.IsNullGroup, AreMagnitudes, AreSobelGradients;
  }

  lemma SameRule(img: Image, s: Setting, t: Stages, y: nat, x: nat)
    requires s.Valid() && img.Valid() && t == StagesOf(img, s) && AreSobelGradients(s.p)
    requires y < s.p.height && x < s.p.width
    ensures RuleAt(s.p, y, x, s.conformOpenCv, s.high) == RuleOf(t, s.conformOpenCv, s.high, y, x)
  {
    NeighbourStage(img, s, t, y, x);
    GroupStage(img, s, t, y, x);
    hide StagesOf, Setting.Class, Planes.NeighbourBefore, Planes.NeighbourAfter, Planes.IsStrictAfter, Planes.Magnitude,
         Planes.IsNullGroup, AreSobelGradients, EdgeRule, StepAlong, Category, IsDiagonal;
  }

  // The pixels that a pixel is compared with.
  lemma NeighbourStage(img: Image, s: Setting, t: Stages, y: nat, x: nat)
    requires s.Valid() && img.Valid() && t == StagesOf(img, s) && AreSobelGradients(s.p)
    requires y < s.p.height && x < s.p.width
    ensures var (dy, dx) := StepAlong(t, s.conformOpenCv, y, x);
            && s.p.NeighbourBefore(y, x, s.conformOpenCv) == t.magnitude(y - dy, x - dx)
            && s.p.NeighbourAfter(y, x, s.conformOpenCv) == t.magnitude(y + dy, x + dx)
    ensures s.p.IsStrictAfter(y, x, s.conformOpenCv)
       <==> s.conformOpenCv && IsDiagonal(Category(t.gx(y, x), t.gy(y, x)))
  {
    DirectionStage(img, s, t, y, x);
    ShiftIsSmall(Category(t.gx(y, x), t.gy(y, x)), s.conformOpenCv);
    hide Classify, Category, PrevShift, Planes.Padded, Planes.Direction, RowStart, AreSobelGradients;
  }

  lemma DirectionStage(img: Image, s: Setting, t: Stages, y: nat, x: nat)
    requires s.Valid() && img.Valid() && t == StagesOf(img, s) && AreSobelGradients(s.p)
    requires y < s.p.height && x < s.p.width
    ensures s.p.Direction(y, x) == Category(t.gx(y, x), t.gy(y, x))
  {
    var at := PixelAt(0, s.p.width, y, x);
    InPlane(y, x, s.p.width, s.p.height);
    ClassificationIsExact(s.p.gx[at], s.p.gy[at]);
    hide Classify, Category, RowStart;
  }

  // What suppression writes is the scalar rule, outside of the groups of eight without magnitude.
  lemma RuleStage(s: Setting, low: Int16, y: nat, x: nat)
    requires s.Valid() && AreMagnitudes(s.p, low) && AreSobelGradients(s.p)
    requires y < s.p.height && x < s.p.width
    ensures s.Class(y, x) == if s.p.IsNullGroup(y, x - x % 8) then 0 else RuleAt(s.p, y, x, s.conformOpenCv, s.high)
  {
    hide Classify, Planes.NeighbourBefore, Planes.NeighbourAfter, Planes.IsStrictAfter, EdgeRule, VectorMagnitude,
         Planes.IsNullGroup;
    var at := PixelAt(0, s.p.width, y, x);
    InPlane(y, x, s.p.width, s.p.height);
    MagnitudeIs(s.p.gx[at], s.p.gy[at], low);
    assert s.p.Magnitude(y, x) <= 2 * MAX_SOBEL;
    SuppressedIsRule(s.p, y, x, s.conformOpenCv, s.high);
  }

  lemma GroupStage(img: Image, s: Setting, t: Stages, y: nat, x: nat)
    requires img.Valid() && s.Valid() && t == StagesOf(img, s) && y < s.p.height && x < s.p.width
    ensures t.kind(y, x) == s.Class(y, x) && t.magnitude(y, x) == s.p.Magnitude(y, x)
    ensures s.p.IsNullGroup(y, x - x % 8)
       <==> forall k :: x - x % 8 <= k < x - x % 8 + 8 ==> t.magnitude(y, k) == 0
  {
    hide Planes.Padded, Suppressed, Image.Valid, Image.At, RowStart, PixelAt, IsConnectedEdge;
    forall k | x - x % 8 <= k < x - x % 8 + 8 ensures s.p.Magnitude(y, k) == t.magnitude(y, k) {}
  }

  lemma EdgeStage(img: Image, s: Setting, t: Stages, y: nat, x: nat)
    requires img.Valid() && s.Valid() && t == StagesOf(img, s)
    ensures t.edge(y, x) <==> IsConnectedEdge(s, y, x)
    ensures t.edge(y, x)
       <==> exists path :: IsKindPath(t, s.p.width, s.p.height, path) && path[|path| - 1] == Pixel(y, x)
  {
    hide Setting.Class, Touch;
    forall path ensures IsKindPath(t, s.p.width, s.p.height, path) <==> IsEdgePath(s, path) {}
  }

  // The stages of the setting that suppression and hysteresis work on.
  lemma StagesAre(img: Image, s: Setting, t: Stages, low: Int16)
    requires s.Valid() && AreGradients(img, s.p) && t == StagesOf(img, s)
    requires AreMagnitudes(s.p, low) && AreSobelGradients(s.p) && s.p.width == AlignedWidth(img.width)
    ensures AreStages(t, img.width, img.height, low, s.high, s.conformOpenCv)
  {
    hide AreDerivatives, IsMagnitude, IsKind, IsKindPath, AlignedWidth, AreMagnitudes, AreSobelGradients, StagesOf;
    forall y: nat, x: nat | y < img.height && x < s.p.width {
      DerivativeStage(img, s, t, y, x);
    }
    forall y, x | -1 <= y <= img.height && -1 <= x <= s.p.width {
      MagnitudeStage(img, s, t, low, y, x);
    }
    forall y: nat, x: nat | y < img.height && x < s.p.width {
      KindStage(img, s, t, low, y, x);
    }
    forall y: nat, x: nat | y < img.height && x < s.p.width {
      EdgeStage(img, s, t, y, x);
    }
  }

  // canny_u8. The stages start from the source, whose border repeats its outermost pixels, and the destination shows
  // 255 for the edges and 0 elsewhere; it may be the source, and no other cell of it changes. The cast of thresholds
  // truncates them where that is defined. The stages are known to the proof only.
  method CannyU8(src: array?<Byte>, srcStride: nat, dst: array?<Byte>, dstStride: nat, width: nat, height: nat,
                 lowThreshold: real, highThreshold: real, cast: real -> Int16, conformOpenCv: bool,
                 memoryForBuffers: bool, memoryForSobel: bool)
    returns (error: Error, ghost t: Stages)
    requires forall r: real ::
               && (0.0 <= r < 32768.0 ==> cast(r) == r.Floor)
               && (-32769.0 < r < 0.0 ==> cast(r) == -(-r).Floor)
    requires src != null && height > 0 ==> (height - 1) * srcStride + width <= src.Length
    requires dst != null && height > 0 ==> (height - 1) * dstStride + width <= dst.Length
    requires dst != null && height > 1 ==> width <= dstStride
    modifies dst
    ensures error == if src == null || dst == null then NullPointer
                     else if width * height >= 0x1_0000_0000_0000 then OutOfRange
                     else if !memoryForBuffers then Allocation
                     else if width < 2 || height < 2 then NotImplemented
                     else if !memoryForSobel then Allocation
                     else if (width + 7) / 8 * 8 * height >= 0x1_0000_0000_0000 then OutOfRange
                     else Ok
    ensures error != Ok && dst != null ==> dst[..] == old(dst[..])
    ensures error == Ok ==>
              forall y, x | -1 <= y <= height && -1 <= x <= width ::
                var row := if y < 0 then 0 else if y < height then y else height - 1;
                var column := if x < 0 then 0 else if x < width then x else width - 1;
                && PixelAt(0, srcStride, row, column) < src.Length
                && t.pixel(y, x) == old(src[PixelAt(0, srcStride, row, column)])
    ensures error == Ok ==> AreStages(t, width, height, cast(lowThreshold), cast(highThreshold), conformOpenCv)
    ensures error == Ok ==>
              forall y: nat, x: nat | y < height && x < width ::
                && PixelAt(0, dstStride, y, x) < dst.Length
                && dst[PixelAt(0, dstStride, y, x)] == if t.edge(y, x) then 255 else 0
    ensures error == Ok ==>
              forall p | 0 <= p < dst.Length
                         && forall y: nat, x: nat | y < height && x < width :: PixelAt(0, dstStride, y, x) != p ::
                dst[p] == old(dst[p])
  {
    var low, high := cast(lowThreshold), cast(highThreshold);
    if src != null { CoversIs(src.Length, 0, srcStride, width, height); }
    if dst != null { CoversIs(dst.Length, 0, dstStride, width, height); }
    SizeLimit(width, height);
    SizeLimit(AlignedWidth(width), height);
    hide ImageSizeAccepted, IsConnectedEdge, IsEdgePath, IsEdgeByRule, PixelAt, Covers;
    ghost var img := Image(if src == null then [] else src[..], srcStride, width, height);
    ghost var s;
    error, s := DetectEdgesOfBytes(src, srcStride, dst, dstStride, width, height, low, high, conformOpenCv,
                                   memoryForBuffers, memoryForSobel);
    if error != Ok {
      t := Stages((_, _) => 0, (_, _) => 0, (_, _) => 0, (_, _) => 0, (_, _) => 0, (_, _) => false);
      return;
    }
    GradientsOfBytes(img, s.p);
    t := StagesOf(img, s);
    StagesAre(img, s, t, low);
    hide StagesOf, AreGradients, AreMagnitudes, AreSobelGradients, Image.Valid, Setting.Valid, AreStages;
    forall y, x | -1 <= y <= height && -1 <= x <= width {
      PixelStage(img, s, t, y, x);
    }
    forall y: nat, x: nat | y < height && x < width {
      EdgeStage(img, s, t, y, x);
    }
  }

  // Two rows of this width are accepted by the first check of the size and refused once the width is aligned.
  lemma AlignmentExceedsLimit()
    ensures 0x7FFF_FFFF_FFFF * 2 < 0x1_0000_0000_0000 <= AlignedWidth(0x7FFF_FFFF_FFFF) * 2
    ensures ImageSizeAccepted(0x7FFF_FFFF_FFFF, 2) && !ImageSizeAccepted(AlignedWidth(0x7FFF_FFFF_FFFF), 2)
  {
  }
}
