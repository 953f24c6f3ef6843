/** The 3x3 Sobel derivatives of an image of bytes with replicated borders: a vertical pass over three rows into a row
    buffer, and a horizontal pass over three of its columns. */
module Sobel {
  import opened Basics
  import opened Images
  import opened Buffers
  import opened Gradients
  import opened LoopDrivers

  // The direction of the derivative.
  datatype Axis = Horizontal | Vertical

  // --- The operator -----------------------------------------------------------------------------

  // FixedBorderType::REPLICATE
  function Replicated(i: int, n: nat): (r: nat)
    requires n > 0
    ensures r < n && (0 <= i < n ==> r == i)
  {
    if i < 0 then 0 else if i >= n then n - 1 else i
  }

  /** An image of bytes in strided memory. */
  datatype Image = Image(mem: seq<Byte>, stride: nat, width: nat, height: nat) {
    predicate Valid() {
      Covers(|mem|, 0, stride, width, height) && width > 0 && height > 0
    }

    // The pixel at a position that may lie outside.
    function At(y: int, x: int): Byte
      requires Valid()
    {
      PixelInBounds(|mem|, 0, stride, width, height, Replicated(y, height), Replicated(x, width));
      mem[PixelAt(0, stride, Replicated(y, height), Replicated(x, width))]
    }

    // Twice-weighted sums of three pixels in a column or a row.
    function ColumnSum(y: int, x: int): int
      requires Valid()
    {
      At(y - 1, x) + 2 * At(y, x) + At(y + 1, x)
    }

    function RowSum(y: int, x: int): int
      requires Valid()
    {
      At(y, x - 1) + 2 * At(y, x) + At(y, x + 1)
    }

    // The derivative as a convolution with a 3x3 kernel.
    function Gradient(axis: Axis, y: int, x: int): Int16
      requires Valid()
    {
      match axis
      case Horizontal => ColumnSum(y, x + 1) - ColumnSum(y, x - 1)
      case Vertical => RowSum(y + 1, x) - RowSum(y - 1, x)
    }
  }

  // Pixels beyond the border repeat those at the border.
  lemma PixelBeyond(img: Image, y: int, x: int, start: int, column: int)
    requires img.Valid()
    requires start == (if y < 0 then 0 else if y < img.height then y else img.height - 1) * img.stride
    requires column == if x < 0 then 0 else if x < img.width then x else img.width - 1
    ensures 0 <= start + column < |img.mem| && img.At(y, x) == img.mem[start + column]
  {
    var row := if y < 0 then 0 else if y < img.height then y else img.height - 1;
    PixelInBounds(|img.mem|, 0, img.stride, img.width, img.height, row, column);
    PixelAtIs(0, img.stride, row, column);
  }

  // The derivatives of a pixel, by the positions of the pixels around it, which are named after the points of the
  // compass: weights 1, 2 and 1 across the direction of the derivative. above, here and below are where the three rows
  // start; rows and columns beyond the border are the outermost ones.
  lemma GradientIs(img: Image, y: nat, x: nat, above: nat, here: nat, below: nat, left: nat, right: nat)
    requires img.Valid() && y < img.height && x < img.width && here == y * img.stride
    requires above == (if y == 0 then 0 else y - 1) * img.stride
    requires below == (if y == img.height - 1 then y else y + 1) * img.stride
    requires left == (if x == 0 then 0 else x - 1) && right == if x == img.width - 1 then x else x + 1
    ensures left <= x <= right && above + right < |img.mem| && here + right < |img.mem| && below + right < |img.mem|
    ensures var nw: int, n: int, ne: int := img.mem[above + left], img.mem[above + x], img.mem[above + right];
            var w: int, e: int := img.mem[here + left], img.mem[here + right];
            var sw: int, s: int, se: int := img.mem[below + left], img.mem[below + x], img.mem[below + right];
            && img.Gradient(Horizontal, y, x) == (ne + 2 * e + se) - (nw + 2 * w + sw)
            && img.Gradient(Vertical, y, x) == (sw + 2 * s + se) - (nw + 2 * n + ne)
  {
    hide Image.At, Image.Valid;
    PixelBeyond(img, y - 1, x - 1, above, left);
    PixelBeyond(img, y - 1, x, above, x);
    PixelBeyond(img, y - 1, x + 1, above, right);
    PixelBeyond(img, y, x - 1, here, left);
    PixelBeyond(img, y, x + 1, here, right);
    PixelBeyond(img, y + 1, x - 1, below, left);
    PixelBeyond(img, y + 1, x, below, x);
    PixelBeyond(img, y + 1, x + 1, below, right);
  }

  // --- The separable passes ---------------------------------------------------------------------

  // Narrowing to 16 bits, where overflow is permitted.
  function Narrow16(x: int): Int16 {
    (x + 0x8000) % 0x1_0000 - 0x8000
  }

  // vertical_scalar_path, and a lane of vertical_vector_path
  function VerticalPath(axis: Axis, above: int, here: int, below: int): Int16 {
    if axis.Horizontal? then Narrow16(above + 2 * here + below) else Narrow16(below - above)
  }

  // horizontal_scalar_path, and a lane of horizontal_vector_path
  function HorizontalPath(axis: Axis, left: int, here: int, right: int): Int16 {
    if axis.Horizontal? then Narrow16(right - left) else Narrow16(left + 2 * here + right)
  }

  // The element of the row buffer for a column, replicated beyond the borders.
  function Buffered(axis: Axis, img: Image, y: nat, x: int): Int16
    requires img.Valid()
  {
    VerticalPath(axis, img.At(y - 1, x), img.At(y, x), img.At(y + 1, x))
  }

  lemma NarrowIsExact(x: int)
    requires -0x8000 <= x < 0x8000
    ensures Narrow16(x) == x
  {
  }

  // The passes on a neighbourhood of three columns a, b and c, from the top.
  lemma PassesAre(axis: Axis, a0: Byte, a1: Byte, a2: Byte, b0: Byte, b1: Byte, b2: Byte, c0: Byte, c1: Byte, c2: Byte)
    ensures HorizontalPath(axis, VerticalPath(axis, a0, a1, a2), VerticalPath(axis, b0, b1, b2),
                           VerticalPath(axis, c0, c1, c2))
         == if axis.Horizontal? then (c0 + 2 * c1 + c2) - (a0 + 2 * a1 + a2)
            else (a2 + 2 * b2 + c2) - (a0 + 2 * b0 + c0)
  {
    hide Narrow16;
    if axis.Horizontal? {
      NarrowIsExact(a0 + 2 * a1 + a2);
      NarrowIsExact(c0 + 2 * c1 + c2);
      NarrowIsExact((c0 + 2 * c1 + c2) - (a0 + 2 * a1 + a2));
    } else {
      NarrowIsExact(a2 - a0);
      NarrowIsExact(b2 - b0);
      NarrowIsExact(c2 - c0);
      NarrowIsExact((a2 - a0) + 2 * (b2 - b0) + (c2 - c0));
    }
  }

  // The two passes are the convolution; nothing overflows, and the result is bounded.
  lemma SeparableIsKernel(axis: Axis, img: Image, y: nat, x: nat)
    requires img.Valid() && y < img.height && x < img.width
    ensures var left, right := Buffered(axis, img, y, x - 1), Buffered(axis, img, y, x + 1);
            HorizontalPath(axis, left, Buffered(axis, img, y, x), right) == img.Gradient(axis, y, x)
    ensures Abs(img.Gradient(axis, y, x)) <= MAX_SOBEL
  {
    hide Image.At, Image.Valid, HorizontalPath, VerticalPath;
    PassesAre(axis, img.At(y - 1, x - 1), img.At(y, x - 1), img.At(y + 1, x - 1),
              img.At(y - 1, x), img.At(y, x), img.At(y + 1, x),
              img.At(y - 1, x + 1), img.At(y, x + 1), img.At(y + 1, x + 1));
  }

  // A column beyond the border is buffered like the one at the border.
  lemma BufferReplicates(axis: Axis, img: Image, y: nat, x: int)
    requires img.Valid()
    ensures Buffered(axis, img, y, x) == Buffered(axis, img, y, Replicated(x, img.width))
  {
  }

  // --- The filter -------------------------------------------------------------------------------

  // The row above or below, or the row itself at the border.
  function Neighbouring(y: nat, step: int, n: nat): (r: nat)
    requires y < n && -1 <= step <= 1
    ensures r == Replicated(y + step, n)
  {
    if step < 0 && y == 0 then y else if step > 0 && y == n - 1 then y else y + step
  }

  // One more call of a row loop.
  lemma CallsStep(calls: seq<Call>, k: nat, i: int)
    requires k < |calls|
    ensures Times(calls[..k + 1], i) == Times(calls[..k], i) + if InWindow(calls[k], i) then 1 else 0
  {
    assert calls[..k + 1] == calls[..k] + [calls[k]];
    TimesAfter(calls[..k], calls[k], i);
  }

  // process_vertical: the row buffer for row y, by the windows of the row loop.
  method ProcessVertical(axis: Axis, src: array<Byte>, stride: nat, width: nat, height: nat, y: nat)
    returns (buffer: array<Int16>)
    requires Image(src[..], stride, width, height).Valid() && y < height
    ensures fresh(buffer) && buffer.Length == width
    ensures forall x: nat :: x < width ==> buffer[x] == Buffered(axis, Image(src[..], stride, width, height), y, x)
  {
    hide VerticalPath, RowStart, Times, Buffered;
    ghost var img := Image(src[..], stride, width, height);
    buffer := new Int16[width](_ => 0);
    var above, below := Neighbouring(y, -1, height), Neighbouring(y, 1, height);
    var calls := ProcessFilterRow(width, 16);
    assert calls[..0] == [] && forall i :: Times([], i) == 0 by { NoCalls(); }
    for k := 0 to |calls|
      invariant forall x: nat :: x < width && Times(calls[..k], x) > 0 ==> buffer[x] == Buffered(axis, img, y, x)
    {
      ProcessVerticalWindow(axis, src, stride, width, height, y, above, below, buffer, calls[k]);
      forall x: nat | x < width && Times(calls[..k + 1], x) > 0 ensures buffer[x] == Buffered(axis, img, y, x) {
        CallsStep(calls, k, x);
      }
    }
    assert calls[..|calls|] == calls;
  }

  // One call: all lanes of its window. Columns that were right stay so.
  method ProcessVerticalWindow(axis: Axis, src: array<Byte>, stride: nat, width: nat, height: nat, y: nat,
                               above: nat, below: nat, buffer: array<Int16>, c: Call)
    requires Image(src[..], stride, width, height).Valid() && y < height && buffer.Length == width
    requires above == Replicated(y - 1, height) && below == Replicated(y + 1, height)
    requires 0 <= c.at && c.at + c.length <= width
    modifies buffer
    ensures var img := Image(src[..], stride, width, height);
            forall x: nat :: x < width ==>
              buffer[x] == if InWindow(c, x) then Buffered(axis, img, y, x) else old(buffer[x])
  {
    hide VerticalPath, RowStart;
    ghost var img := Image(src[..], stride, width, height);
    for x := c.at to c.at + c.length
      invariant forall x': nat :: x' < width ==>
                  buffer[x'] == if c.at <= x' < x then Buffered(axis, img, y, x') else old(buffer[x'])
    {
      PixelInBounds(src.Length, 0, stride, width, height, above, x);
      PixelInBounds(src.Length, 0, stride, width, height, y, x);
      PixelInBounds(src.Length, 0, stride, width, height, below, x);
      buffer[x] := VerticalPath(axis, src[PixelAt(0, stride, above, x)], src[PixelAt(0, stride, y, x)],
                                src[PixelAt(0, stride, below, x)]);
    }
  }

  // The rows before row have their derivatives, and so have the given columns of that row; columns beyond the image are
  // as before.
  ghost predicate Derived(axis: Axis, img: Image, before: seq<Int16>, dst: seq<Int16>, fullWidth: nat,
                          row: nat, columns: set<int>)
    requires img.Valid()
  {
    && |before| == |dst| == RowStart(0, fullWidth, img.height) && img.width <= fullWidth
    && forall y: nat, x: nat | y < img.height && x < fullWidth ::
         && PixelAt(0, fullWidth, y, x) < |dst|
         && (x < img.width && (y < row || (y == row && x in columns)) ==>
               dst[PixelAt(0, fullWidth, y, x)] == img.Gradient(axis, y, x))
         && (x >= img.width ==> dst[PixelAt(0, fullWidth, y, x)] == before[PixelAt(0, fullWidth, y, x)])
  }

  lemma NothingDerived(axis: Axis, img: Image, dst: seq<Int16>, fullWidth: nat)
    requires img.Valid() && |dst| == RowStart(0, fullWidth, img.height) && img.width <= fullWidth
    ensures Derived(axis, img, dst, dst, fullWidth, 0, {})
  {
    forall y: nat, x: nat | y < img.height && x < fullWidth ensures PixelAt(0, fullWidth, y, x) < |dst| {
      InPlane(y, x, fullWidth, img.height);
    }
  }

  lemma DeriveOne(axis: Axis, img: Image, before: seq<Int16>, dst: seq<Int16>, fullWidth: nat, row: nat,
                  columns: set<int>, column: nat)
    requires img.Valid() && row < img.height && column < img.width
    requires Derived(axis, img, before, dst, fullWidth, row, columns)
    ensures PixelAt(0, fullWidth, row, column) < |dst|
    ensures Derived(axis, img, before, dst[PixelAt(0, fullWidth, row, column) := img.Gradient(axis, row, column)],
                    fullWidth, row, columns + {column})
  {
    hide RowStart, PixelAt, Image.Gradient, Image.Valid;
    var at := PixelAt(0, fullWidth, row, column);
    var dst' := dst[at := img.Gradient(axis, row, column)];
    forall y: nat, x: nat | y < img.height && x < fullWidth
      ensures PixelAt(0, fullWidth, y, x) == at <==> y == row && x == column
    {
      PositionsInOrder(fullWidth, y, x, row, column);
    }
  }

  lemma NextRow(axis: Axis, img: Image, before: seq<Int16>, dst: seq<Int16>, fullWidth: nat, row: nat,
                columns: set<int>)
    requires img.Valid() && row < img.height && Derived(axis, img, before, dst, fullWidth, row, columns)
    requires forall x: nat :: x < img.width ==> x in columns
    ensures Derived(axis, img, before, dst, fullWidth, row + 1, {})
  {
    hide RowStart, PixelAt, Image.Gradient, Image.Valid;
  }

  // process_horizontal_scalar, or one lane: the columns of the buffer to the left and to the right.
  method ProcessHorizontal(axis: Axis, ghost img: Image, ghost before: seq<Int16>, buffer: array<Int16>,
                           dst: array<Int16>, fullWidth: nat, row: nat, ghost columns: set<int>, column: nat,
                           left: nat, right: nat)
    requires img.Valid() && row < img.height && column < img.width == buffer.Length && buffer != dst
    requires left == Replicated(column - 1, img.width) && right == Replicated(column + 1, img.width)
    requires forall x: nat :: x < img.width ==> buffer[x] == Buffered(axis, img, row, x)
    requires Derived(axis, img, before, dst[..], fullWidth, row, columns)
    modifies dst
    ensures Derived(axis, img, before, dst[..], fullWidth, row, columns + {column})
  {
    hide Derived, Buffered, HorizontalPath, Image.Gradient, RowStart;
    BufferReplicates(axis, img, row, column - 1);
    BufferReplicates(axis, img, row, column + 1);
    SeparableIsKernel(axis, img, row, column);
    ghost var was := dst[..];
    DeriveOne(axis, img, before, was, fullWidth, row, columns, column);
    dst[PixelAt(0, fullWidth, row, column)] := HorizontalPath(axis, buffer[left], buffer[column], buffer[right]);
    assert dst[..] == was[PixelAt(0, fullWidth, row, column) := img.Gradient(axis, row, column)];
  }

  // One call of the bulk loop, which starts one column to the right: all lanes of its window.
  method ProcessHorizontalWindow(axis: Axis, ghost img: Image, ghost before: seq<Int16>, buffer: array<Int16>,
                                 dst: array<Int16>, fullWidth: nat, row: nat, ghost columns: set<int>, c: Call)
    returns (ghost columns': set<int>)
    requires img.Valid() && row < img.height && img.width == buffer.Length && buffer != dst
    requires 0 <= c.at && c.at + c.length + 2 <= img.width
    requires forall x: nat :: x < img.width ==> buffer[x] == Buffered(axis, img, row, x)
    requires Derived(axis, img, before, dst[..], fullWidth, row, columns)
    modifies dst
    ensures Derived(axis, img, before, dst[..], fullWidth, row, columns')
    ensures columns <= columns' && forall x :: InWindow(c, x - 1) ==> x in columns'
  {
    hide Derived, Buffered;
    columns' := columns;
    for i := c.at to c.at + c.length
      invariant Derived(axis, img, before, dst[..], fullWidth, row, columns')
      invariant forall x: nat :: x < img.width ==> buffer[x] == Buffered(axis, img, row, x)
      invariant columns <= columns' && forall x :: c.at < x <= i ==> x in columns'
    {
      ProcessHorizontal(axis, img, before, buffer, dst, fullWidth, row, columns', i + 1, i, i + 2);
      columns' := columns' + {i + 1};
    }
  }

  // process_horizontal of the workspace: left border, bulk by the windows of the row loop, and right border.
  method ProcessHorizontalRow(axis: Axis, ghost img: Image, ghost before: seq<Int16>, buffer: array<Int16>,
                              dst: array<Int16>, fullWidth: nat, width: nat, row: nat)
    requires img.Valid() && row < img.height && width == img.width == buffer.Length && width >= 2 && buffer != dst
    requires forall x: nat :: x < img.width ==> buffer[x] == Buffered(axis, img, row, x)
    requires Derived(axis, img, before, dst[..], fullWidth, row, {})
    modifies dst
    ensures Derived(axis, img, before, dst[..], fullWidth, row + 1, {})
  {
    hide Derived, Buffered, Times;
    ProcessHorizontal(axis, img, before, buffer, dst, fullWidth, row, {}, 0, 0, 1);
    ghost var columns := {0};
    assert {} + {0} == columns;
    var calls := ProcessFilterRow(width - 2, 8);
    assert calls[..0] == [] && forall i :: Times([], i) == 0 by { NoCalls(); }
    for k := 0 to |calls|
      invariant Derived(axis, img, before, dst[..], fullWidth, row, columns) && 0 in columns
      invariant forall x: nat :: x < img.width ==> buffer[x] == Buffered(axis, img, row, x)
      invariant forall x :: Times(calls[..k], x - 1) > 0 ==> x in columns
    {
      columns := ProcessHorizontalWindow(axis, img, before, buffer, dst, fullWidth, row, columns, calls[k]);
      forall x | Times(calls[..k + 1], x - 1) > 0 ensures x in columns {
        CallsStep(calls, k, x - 1);
      }
    }
    assert calls[..|calls|] == calls;
    ProcessHorizontal(axis, img, before, buffer, dst, fullWidth, row, columns, width - 1, width - 2, width - 1);
    columns := columns + {width - 1};
    forall x: nat | x < width ensures x in columns {
      if 0 < x < width - 1 { assert Times(calls, x - 1) > 0; }
    }
    NextRow(axis, img, before, dst[..], fullWidth, row, columns);
  }

  // sobel_3x3_horizontal_s16_u8 and sobel_3x3_vertical_s16_u8 into the left part of a wider buffer.
  method Derive(axis: Axis, src: array<Byte>, stride: nat, width: nat, height: nat, dst: array<Int16>, fullWidth: nat,
                memoryForWorkspace: bool)
    returns (error: Error)
    requires Covers(src.Length, 0, stride, width, height)
    requires width <= fullWidth && dst.Length == RowStart(0, fullWidth, height)
    modifies dst
    ensures error == if width < 2 || height < 2 then NotImplemented
                     else if width * height >= 0x1_0000_0000_0000 then OutOfRange
                     else if !memoryForWorkspace then Allocation else Ok
    ensures error == Ok ==>
              && Image(src[..], stride, width, height).Valid()
              && Derived(axis, Image(src[..], stride, width, height), old(dst[..]), dst[..], fullWidth, height, {})
  {
    SizeLimit(width, height);
    hide Derived, Buffered, RowStart, Covers, ImageSizeAccepted;
    if width < 2 || height < 2 {
      return NotImplemented;
    }
    if !ImageSizeAccepted(width, height) {
      return OutOfRange;
    }
    if !memoryForWorkspace {
      return Allocation;
    }
    ghost var before, img := dst[..], Image(src[..], stride, width, height);
    NothingDerived(axis, img, before, fullWidth);
    for y := 0 to height
      invariant src[..] == img.mem && Derived(axis, img, before, dst[..], fullWidth, y, {})
    {
      var buffer := ProcessVertical(axis, src, stride, width, height, y);
      ProcessHorizontalRow(axis, img, before, buffer, dst, fullWidth, width, y);
    }
    error := Ok;
  }
}
