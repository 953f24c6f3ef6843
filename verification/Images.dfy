/** Images in strided memory, and the row-major view of their pixels. */
module Images {
  import opened Basics
  import opened Arithmetic
  import opened Extremum

  // Where row y of an image at base starts. Defined by repeated addition, as rows are stepped over; the
  // closed form is RowStartIs.
  function RowStart(base: nat, stride: nat, y: nat): nat {
    if y == 0 then base else RowStart(base, stride, y - 1) + stride
  }

  lemma {:induction false} RowStartIs(base: nat, stride: nat, y: nat)
    ensures RowStart(base, stride, y) == base + y * stride
  {
    if y > 0 {
      RowStartIs(base, stride, y - 1);
      assert y * stride == (y - 1) * stride + stride;
    }
  }

  lemma {:induction false} RowStartsGrow(base: nat, stride: nat, y: nat, y': nat)
    requires y <= y'
    ensures RowStart(base, stride, y) <= RowStart(base, stride, y')
  {
    if y < y' { RowStartsGrow(base, stride, y, y' - 1); }
  }

  // Position in memory of the pixel in row y and column x of an image that starts at base.
  function PixelAt(base: nat, stride: nat, y: nat, x: nat): nat {
    RowStart(base, stride, y) + x
  }

  // The memory covers every pixel. Rows may overlap, and a single row may have any stride.
  predicate Covers(size: nat, base: nat, stride: nat, width: nat, height: nat) {
    height == 0 || RowStart(base, stride, height - 1) + width <= size
  }

  lemma PixelInBounds(size: nat, base: nat, stride: nat, width: nat, height: nat, y: nat, x: nat)
    requires Covers(size, base, stride, width, height) && y < height && x < width
    ensures PixelAt(base, stride, y, x) < size
  {
    RowStartsGrow(base, stride, y, height - 1);
  }

  // Positions and coverage in closed form: the last pixel lies in the memory.
  lemma PixelAtIs(base: nat, stride: nat, y: nat, x: nat)
    ensures PixelAt(base, stride, y, x) == base + y * stride + x
  {
    RowStartIs(base, stride, y);
  }

  lemma CoversIs(size: nat, base: nat, stride: nat, width: nat, height: nat)
    ensures Covers(size, base, stride, width, height)
       <==> height == 0 || base + (height - 1) * stride + width <= size
  {
    if height > 0 { RowStartIs(base, stride, height - 1); }
  }

  // The first rows of a covered image are covered.
  lemma CoversRows(size: nat, base: nat, stride: nat, width: nat, height: nat, rows: nat)
    requires Covers(size, base, stride, width, height) && rows <= height
    ensures Covers(size, base, stride, width, rows)
  {
    if rows > 0 { RowStartsGrow(base, stride, rows - 1, height - 1); }
  }

  // The pixels of the image, row after row.
  function Pixels<T>(mem: seq<T>, base: nat, stride: nat, width: nat, height: nat): (s: seq<T>)
    requires Covers(|mem|, base, stride, width, height)
    ensures |s| == RowStart(0, width, height)
  {
    if height == 0 then [] else
      CoversRows(|mem|, base, stride, width, height, height - 1);
      var row := RowStart(base, stride, height - 1);
      Pixels(mem, base, stride, width, height - 1) + mem[row..row + width]
  }

  // Rows::offset_for_index finds the pixel that a row-major index denotes.
  function OffsetForIndex(index: nat, width: nat, stride: nat): nat
    requires width != 0
  {
    (index / width) * stride + index % width
  }

  lemma {:induction false} PixelOfIndex<T>(mem: seq<T>, base: nat, stride: nat, width: nat, height: nat, y: nat, x: nat)
    requires Covers(|mem|, base, stride, width, height) && y < height && x < width
    ensures PixelAt(base, stride, y, x) < |mem|
    ensures PixelAt(0, width, y, x) < |Pixels(mem, base, stride, width, height)|
    ensures Pixels(mem, base, stride, width, height)[PixelAt(0, width, y, x)] == mem[PixelAt(base, stride, y, x)]
  {
    CoversRows(|mem|, base, stride, width, height, height - 1);
    var above, start := Pixels(mem, base, stride, width, height - 1), RowStart(base, stride, height - 1);
    var last := mem[start..start + width];
    if y < height - 1 {
      PixelOfIndex(mem, base, stride, width, height - 1, y, x);
      assert (above + last)[PixelAt(0, width, y, x)] == above[PixelAt(0, width, y, x)];
    } else {
      assert (above + last)[|above| + x] == last[x];
    }
  }

  lemma NoPixels<T>(mem: seq<T>, base: nat, stride: nat, width: nat)
    ensures Covers(|mem|, base, stride, width, 0) && Pixels(mem, base, stride, width, 0) == []
  {
  }

  // One more row.
  lemma PixelsStep<T>(mem: seq<T>, base: nat, stride: nat, width: nat, height: nat, row: nat)
    requires Covers(|mem|, base, stride, width, height) && row < height
    ensures Covers(|mem|, base, stride, width, row) && Covers(|mem|, base, stride, width, row + 1)
    ensures var start := RowStart(base, stride, row);
            && start + width <= |mem|
            && Pixels(mem, base, stride, width, row + 1)
                == Pixels(mem, base, stride, width, row) + mem[start..start + width]
  {
    CoversRows(|mem|, base, stride, width, height, row);
    CoversRows(|mem|, base, stride, width, height, row + 1);
  }

  // Rectangle::area
  function Area(width: nat, height: nat): nat {
    height * width
  }

  // Continuous rows are one long row.
  lemma {:induction false} ContinuousPixels<T>(mem: seq<T>, base: nat, width: nat, height: nat)
    requires Covers(|mem|, base, width, width, height) && height > 0
    ensures base + Area(width, height) <= |mem|
    ensures Pixels(mem, base, width, width, height) == mem[base..base + Area(width, height)]
  {
    RowStartIs(base, width, height);
    ContinuousRows(mem, base, width, height);
  }

  lemma {:induction false} ContinuousRows<T>(mem: seq<T>, base: nat, width: nat, height: nat)
    requires Covers(|mem|, base, width, width, height) && height > 0
    ensures base <= RowStart(base, width, height) <= |mem|
    ensures Pixels(mem, base, width, width, height) == mem[base..RowStart(base, width, height)]
  {
    if height == 1 {
      assert Pixels(mem, base, width, width, 0) == [];
      assert RowStart(base, width, 0) == base;
    } else {
      CoversRows(|mem|, base, width, width, height, height - 1);
      ContinuousRows(mem, base, width, height - 1);
      var start := RowStart(base, width, height - 1);
      assert mem[base..start] + mem[start..start + width] == mem[base..start + width];
    }
  }

  // The best cell is not beaten by another cell, and beats it if that comes earlier.
  predicate Withstands(d: Direction, mem: seq<Byte>, best: nat, other: nat, isEarlier: bool) {
    && best < |mem| && other < |mem|
    && !Better(d, mem[other], mem[best])
    && (isEarlier ==> Better(d, mem[best], mem[other]))
  }

  predicate IsEarlier(y: nat, x: nat, row: nat, column: nat) {
    y < row || (y == row && x < column)
  }

  // (row, column) is the position of the first best pixel in row-major order.
  ghost predicate IsFirstBestPixel(d: Direction, mem: seq<Byte>, base: nat, stride: nat,
                                   width: nat, height: nat, row: nat, column: nat)
    requires Covers(|mem|, base, stride, width, height)
  {
    && row < height && column < width
    && forall y: nat, x: nat :: y < height && x < width ==>
         Withstands(d, mem, PixelAt(base, stride, row, column), PixelAt(base, stride, y, x),
             IsEarlier(y, x, row, column))
  }

  // offset is the byte offset of that pixel.
  ghost predicate IsFirstBestOffset(d: Direction, mem: seq<Byte>, base: nat, stride: nat,
                                    width: nat, height: nat, offset: nat)
    requires Covers(|mem|, base, stride, width, height)
  {
    exists row: nat, column: nat ::
      IsFirstBestPixel(d, mem, base, stride, width, height, row, column) && offset == PixelAt(0, stride, row, column)
  }

  lemma FirstBestPixelIsUnique(d: Direction, mem: seq<Byte>, base: nat, stride: nat, width: nat, height: nat,
                               row: nat, column: nat, row': nat, column': nat)
    requires Covers(|mem|, base, stride, width, height)
    requires IsFirstBestPixel(d, mem, base, stride, width, height, row, column)
    requires IsFirstBestPixel(d, mem, base, stride, width, height, row', column')
    ensures row == row' && column == column'
  {
    var best, best' := PixelAt(base, stride, row, column), PixelAt(base, stride, row', column');
    assert Withstands(d, mem, best, best', IsEarlier(row', column', row, column));
    assert Withstands(d, mem, best', best, IsEarlier(row, column, row', column'));
  }

  lemma FirstBestOffsetIsUnique(d: Direction, mem: seq<Byte>, base: nat, stride: nat, width: nat, height: nat,
                                offset: nat, offset': nat)
    requires Covers(|mem|, base, stride, width, height)
    requires IsFirstBestOffset(d, mem, base, stride, width, height, offset)
    requires IsFirstBestOffset(d, mem, base, stride, width, height, offset')
    ensures offset == offset'
  {
    var row: nat, column: nat :| IsFirstBestPixel(d, mem, base, stride, width, height, row, column)
                                 && offset == PixelAt(0, stride, row, column);
    var row': nat, column': nat :| IsFirstBestPixel(d, mem, base, stride, width, height, row', column')
                                   && offset' == PixelAt(0, stride, row', column');
    FirstBestPixelIsUnique(d, mem, base, stride, width, height, row, column, row', column');
  }

  // The index of the first best element of the row-major view gives the first best pixel.
  lemma FirstBestOfPixels(d: Direction, mem: seq<Byte>, base: nat, stride: nat, width: nat, height: nat, index: nat)
    requires Covers(|mem|, base, stride, width, height)
    requires IsFirstBest(d, Pixels(mem, base, stride, width, height), index)
    ensures width != 0
    ensures IsFirstBestPixel(d, mem, base, stride, width, height, index / width, index % width)
    ensures IsFirstBestOffset(d, mem, base, stride, width, height, OffsetForIndex(index, width, stride))
  {
    RowStartIs(0, width, height);
    DivBound(index, width, height);
    var row, column := index / width, index % width;
    RowStartIs(0, width, row);
    forall y: nat, x: nat | y < height && x < width
      ensures Withstands(d, mem, PixelAt(base, stride, row, column), PixelAt(base, stride, y, x),
                IsEarlier(y, x, row, column))
    {
      CompareWithFirstBest(d, mem, base, stride, width, height, row, column, index, y, x);
    }
    RowStartIs(0, stride, row);
  }

  lemma CompareWithFirstBest(d: Direction, mem: seq<Byte>, base: nat, stride: nat, width: nat, height: nat,
                             row: nat, column: nat, index: nat, y: nat, x: nat)
    requires Covers(|mem|, base, stride, width, height)
    requires IsFirstBest(d, Pixels(mem, base, stride, width, height), index)
    requires row < height && column < width && index == PixelAt(0, width, row, column) && y < height && x < width
    ensures Withstands(d, mem, PixelAt(base, stride, row, column), PixelAt(base, stride, y, x),
              IsEarlier(y, x, row, column))
  {
    PixelOfIndex(mem, base, stride, width, height, row, column);
    PixelOfIndex(mem, base, stride, width, height, y, x);
    var s, i := Pixels(mem, base, stride, width, height), PixelAt(0, width, y, x);
    assert !Better(d, s[i], s[index]);
    if y < row {
      RowStartsGrow(0, width, y + 1, row);
    }
  }

  // The first smallest pixel: no pixel is smaller, and every earlier one is greater.
  lemma FirstSmallest(mem: seq<Byte>, base: nat, stride: nat, width: nat, height: nat, offset: nat)
    returns (row: nat, column: nat)
    requires Covers(|mem|, base, stride, width, height)
    requires IsFirstBestOffset(Smallest, mem, base, stride, width, height, offset)
    ensures row < height && column < width && offset == row * stride + column == PixelAt(0, stride, row, column)
    ensures forall y: nat, x: nat | y < height && x < width ::
              && PixelAt(base, stride, row, column) < |mem| && PixelAt(base, stride, y, x) < |mem|
              && mem[PixelAt(base, stride, row, column)] <= mem[PixelAt(base, stride, y, x)]
              && (y < row || (y == row && x < column) ==>
                    mem[PixelAt(base, stride, row, column)] < mem[PixelAt(base, stride, y, x)])
  {
    row, column :| IsFirstBestPixel(Smallest, mem, base, stride, width, height, row, column)
                   && offset == PixelAt(0, stride, row, column);
    PixelAtIs(0, stride, row, column);
    forall y: nat, x: nat | y < height && x < width
      ensures Withstands(Smallest, mem, PixelAt(base, stride, row, column), PixelAt(base, stride, y, x),
                         IsEarlier(y, x, row, column))
    {
    }
  }

  // The first largest pixel: no pixel is greater, and every earlier one is smaller.
  lemma FirstLargest(mem: seq<Byte>, base: nat, stride: nat, width: nat, height: nat, offset: nat)
    returns (row: nat, column: nat)
    requires Covers(|mem|, base, stride, width, height)
    requires IsFirstBestOffset(Largest, mem, base, stride, width, height, offset)
    ensures row < height && column < width && offset == row * stride + column == PixelAt(0, stride, row, column)
    ensures forall y: nat, x: nat | y < height && x < width ::
              && PixelAt(base, stride, row, column) < |mem| && PixelAt(base, stride, y, x) < |mem|
              && mem[PixelAt(base, stride, y, x)] <= mem[PixelAt(base, stride, row, column)]
              && (y < row || (y == row && x < column) ==>
                    mem[PixelAt(base, stride, y, x)] < mem[PixelAt(base, stride, row, column)])
  {
    row, column :| IsFirstBestPixel(Largest, mem, base, stride, width, height, row, column)
                   && offset == PixelAt(0, stride, row, column);
    PixelAtIs(0, stride, row, column);
    forall y: nat, x: nat | y < height && x < width
      ensures Withstands(Largest, mem, PixelAt(base, stride, row, column), PixelAt(base, stride, y, x),
                         IsEarlier(y, x, row, column))
    {
    }
  }

  lemma OffsetOfSmallest(mem: seq<Byte>, base: nat, stride: nat, width: nat, height: nat, offset: nat)
    requires Covers(|mem|, base, stride, width, height)
    requires IsFirstBestOffset(Smallest, mem, base, stride, width, height, offset)
    ensures
      exists row: nat, column: nat |
        row < height && column < width && offset == PixelAt(0, stride, row, column) ::
          forall y: nat, x: nat | y < height && x < width ::
            var best, here := PixelAt(base, stride, row, column), PixelAt(base, stride, y, x);
            && best < |mem| && here < |mem| && mem[best] <= mem[here]
            && (y < row || (y == row && x < column) ==> mem[best] < mem[here])
  {
    hide IsFirstBestOffset, Covers, PixelAt;
    var row, column := FirstSmallest(mem, base, stride, width, height, offset);
  }

  lemma OffsetOfLargest(mem: seq<Byte>, base: nat, stride: nat, width: nat, height: nat, offset: nat)
    requires Covers(|mem|, base, stride, width, height)
    requires IsFirstBestOffset(Largest, mem, base, stride, width, height, offset)
    ensures
      exists row: nat, column: nat |
        row < height && column < width && offset == PixelAt(0, stride, row, column) ::
          forall y: nat, x: nat | y < height && x < width ::
            var best, here := PixelAt(base, stride, row, column), PixelAt(base, stride, y, x);
            && best < |mem| && here < |mem| && mem[here] <= mem[best]
            && (y < row || (y == row && x < column) ==> mem[here] < mem[best])
  {
    hide IsFirstBestOffset, Covers, PixelAt;
    var row, column := FirstLargest(mem, base, stride, width, height, offset);
  }
}
