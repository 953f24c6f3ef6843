/** Two-dimensional buffers with margins, kept in one array. */
module Buffers {
  import opened Arithmetic
  import opened Images

  /** Space around an area. */
  datatype Margin = Margin(left: nat, top: nat, right: nat, bottom: nat)

  // Later rows lie behind earlier ones, so positions determine coordinates.
  lemma PositionsInOrder(width: nat, y: nat, x: nat, y': nat, x': nat)
    requires x < width && x' < width
    ensures PixelAt(0, width, y, x) < PixelAt(0, width, y', x') <==> y < y' || (y == y' && x < x')
    ensures PixelAt(0, width, y, x) == PixelAt(0, width, y', x') <==> y == y' && x == x'
  {
    if y < y' {
      RowStartsGrow(0, width, y + 1, y');
    } else if y' < y {
      RowStartsGrow(0, width, y' + 1, y);
    }
  }

  lemma InPlane(y: nat, x: nat, width: nat, height: nat)
    requires y < height && x < width
    ensures PixelAt(0, width, y, x) < RowStart(0, width, height)
  {
    RowStartsGrow(0, width, y + 1, height);
  }

  lemma CoordinatesOf(position: nat, width: nat, height: nat) returns (y: nat, x: nat)
    requires position < RowStart(0, width, height)
    ensures y < height && x < width && PixelAt(0, width, y, x) == position
  {
    RowStartIs(0, width, height);
    DivBound(position, width, height);
    y, x := position / width, position % width;
    RowStartIs(0, width, y);
  }

  // after is before with the given rectangle of cells set to value, and nothing else changed.
  ghost predicate IsFilled<T>(before: seq<T>, after: seq<T>, value: T, width: nat, height: nat,
                              top: nat, bottom: nat, left: nat, right: nat)
  {
    && |before| == |after| == RowStart(0, width, height)
    && forall y: nat, x: nat | y < height && x < width ::
         && PixelAt(0, width, y, x) < |after|
         && after[PixelAt(0, width, y, x)]
            == if top <= y < bottom && left <= x < right then value else before[PixelAt(0, width, y, x)]
  }

  // memset
  method Memset<T>(buffer: array<T>, from: nat, count: nat, value: T)
    requires from + count <= buffer.Length
    modifies buffer
    ensures forall p :: 0 <= p < buffer.Length ==>
              buffer[p] == if from <= p < from + count then value else old(buffer[p])
  {
    for i := 0 to count
      invariant forall p :: 0 <= p < buffer.Length ==>
                  buffer[p] == if from <= p < from + i then value else old(buffer[p])
    {
      buffer[from + i] := value;
    }
  }

  lemma FillRow<T>(before: seq<T>, after: seq<T>, after': seq<T>, value: T, width: nat, height: nat,
                   top: nat, row: nat, left: nat, right: nat)
    requires IsFilled(before, after, value, width, height, top, row, left, right)
    requires top <= row < height && left <= right <= width && |after'| == |after|
    requires var from := PixelAt(0, width, row, left);
             forall p :: 0 <= p < |after| ==> after'[p] == if from <= p < from + (right - left) then value else after[p]
    ensures IsFilled(before, after', value, width, height, top, row + 1, left, right)
  {
    forall y: nat, x: nat | y < height && x < width
      ensures PixelAt(0, width, y, x) < |after'|
      ensures after'[PixelAt(0, width, y, x)]
           == if top <= y < row + 1 && left <= x < right then value else before[PixelAt(0, width, y, x)]
    {
      InPlane(y, x, width, height);
      if left < right {
        PositionsInOrder(width, y, x, row, left);
        PositionsInOrder(width, y, x, row, right - 1);
      }
    }
  }

  // One of the four loops: the same stretch of columns in a range of rows.
  method FillColumns<T>(buffer: array<T>, value: T, width: nat, height: nat,
                        top: nat, bottom: nat, left: nat, right: nat)
    requires buffer.Length == RowStart(0, width, height)
    requires top <= bottom <= height && left <= right <= width
    modifies buffer
    ensures IsFilled(old(buffer[..]), buffer[..], value, width, height, top, bottom, left, right)
  {
    ghost var before := buffer[..];
    forall y: nat, x: nat | y < height && x < width ensures PixelAt(0, width, y, x) < |before| {
      InPlane(y, x, width, height);
    }
    for row := top to bottom
      invariant IsFilled(before, buffer[..], value, width, height, top, row, left, right)
    {
      ghost var was := buffer[..];
      var from := RowStart(0, width, row) + left;
      RowStartsGrow(0, width, row + 1, height);
      Memset(buffer, from, right - left, value);
      FillRow(before, was, buffer[..], value, width, height, top, row, left, right);
    }
  }

  predicate IsInterior(width: nat, height: nat, margin: Margin, y: int, x: int) {
    margin.top <= y < height - margin.bottom && margin.left <= x < width - margin.right
  }

  // The margins hold value and the interior is untouched.
  ghost predicate IsBordered<T>(before: seq<T>, after: seq<T>, value: T, width: nat, height: nat, margin: Margin) {
    && |before| == |after| == RowStart(0, width, height)
    && forall y: nat, x: nat | y < height && x < width ::
         && PixelAt(0, width, y, x) < |after|
         && after[PixelAt(0, width, y, x)]
            == if IsInterior(width, height, margin, y, x) then before[PixelAt(0, width, y, x)] else value
  }

  // make_zero_border_border zeroes exactly the complement of the interior.
  method MakeZeroBorderBorder<T>(buffer: array<T>, zero: T, width: nat, height: nat, margin: Margin)
    requires buffer.Length == RowStart(0, width, height)
    requires margin.left + margin.right <= width && margin.top + margin.bottom <= height
    modifies buffer
    ensures forall y: nat, x: nat | y < height && x < width ::
              && PixelAt(0, width, y, x) < buffer.Length
              && buffer[PixelAt(0, width, y, x)]
                 == if margin.top <= y < height - margin.bottom && margin.left <= x < width - margin.right
                    then old(buffer[PixelAt(0, width, y, x)]) else zero
  {
    ghost var start := buffer[..];
    forall y: nat, x: nat | y < height && x < width ensures PixelAt(0, width, y, x) < |start| {
      InPlane(y, x, width, height);
    }
    if margin.left != 0 {
      FillColumns(buffer, zero, width, height, 0, height, 0, margin.left);
    }
    ghost var afterLeft := buffer[..];
    if margin.top != 0 {
      FillColumns(buffer, zero, width, height, 0, margin.top, margin.left, width - margin.right);
    }
    ghost var afterTop := buffer[..];
    if margin.right != 0 {
      FillColumns(buffer, zero, width, height, 0, height, width - margin.right, width);
    }
    ghost var afterRight := buffer[..];
    if margin.bottom != 0 {
      FillColumns(buffer, zero, width, height, height - margin.bottom, height, margin.left, width - margin.right);
    }
    FourSides(start, afterLeft, afterTop, afterRight, buffer[..], zero, width, height, margin);
  }

  // A side without margin is filled over an empty range of cells.
  lemma FourSides<T>(s0: seq<T>, s1: seq<T>, s2: seq<T>, s3: seq<T>, s4: seq<T>, zero: T,
                     width: nat, height: nat, margin: Margin)
    requires margin.left + margin.right <= width && margin.top + margin.bottom <= height
    requires |s0| == |s1| == |s2| == |s3| == |s4| == RowStart(0, width, height)
    requires if margin.left == 0 then s1 == s0 else IsFilled(s0, s1, zero, width, height, 0, height, 0, margin.left)
    requires if margin.top == 0 then s2 == s1
             else IsFilled(s1, s2, zero, width, height, 0, margin.top, margin.left, width - margin.right)
    requires if margin.right == 0 then s3 == s2
             else IsFilled(s2, s3, zero, width, height, 0, height, width - margin.right, width)
    requires if margin.bottom == 0 then s4 == s3
             else IsFilled(s3, s4, zero, width, height, height - margin.bottom, height,
                           margin.left, width - margin.right)
    ensures IsBordered(s0, s4, zero, width, height, margin)
  {
    forall y: nat, x: nat | y < height && x < width
      ensures PixelAt(0, width, y, x) < |s4|
      ensures s4[PixelAt(0, width, y, x)]
           == if IsInterior(width, height, margin, y, x) then s0[PixelAt(0, width, y, x)] else zero
    {
      InPlane(y, x, width, height);
    }
  }

  // RowsOverUniquePtr: the area with its margins, which are zeroed; the interior is not initialized.
  method NewBuffer<T(0)>(zero: T, width: nat, height: nat, margin: Margin, memoryLeft: bool) returns (buffer: array?<T>)
    ensures buffer == null <==> !memoryLeft
    ensures memoryLeft ==> fresh(buffer)
    ensures memoryLeft ==>
              var fullWidth, fullHeight := margin.left + width + margin.right, margin.top + height + margin.bottom;
              && buffer.Length == RowStart(0, fullWidth, fullHeight)
              && forall y: nat, x: nat | y < fullHeight && x < fullWidth
                  && !IsInterior(fullWidth, fullHeight, margin, y, x) ::
                   && PixelAt(0, fullWidth, y, x) < buffer.Length
                   && buffer[PixelAt(0, fullWidth, y, x)] == zero
  {
    if !memoryLeft {
      return null;
    }
    var fullWidth, fullHeight := margin.left + width + margin.right, margin.top + height + margin.bottom;
    var size := RowStart(0, fullWidth, fullHeight);
    buffer := new T[size];
    MakeZeroBorderBorder(buffer, zero, fullWidth, fullHeight, margin);
  }
}
