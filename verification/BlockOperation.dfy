/** The block-based row driver shared by MinMaxLoc and CountNonZeros: pairs of vectors, blocks of bounded
    size, a scalar tail for each row, and flattening of continuous rows. */
module BlockOperation {
  import opened Basics
  import opened Extremum
  import opened Lanes
  import opened Images
  import opened MinMaxLocOperation
  import opened CountNonZerosOperation

  /** The operations the driver is instantiated with. */
  datatype Operation = Locate(loc: MinMaxLoc) | Count(count: CountNonZeros) {

    function Object(): object {
      match this
      case Locate(op) => op
      case Count(op) => op
    }

    function MaxVectorsPerBlock(): (max: nat)
      ensures max == 254 || max == 255
    {
      match this
      case Locate(_) => MinMaxLocOperation.MAX_VECTORS_PER_BLOCK
      case Count(_) => CountNonZerosOperation.MAX_VECTORS_PER_BLOCK
    }

    ghost predicate Valid()
      reads Object()
    {
      match this
      case Locate(op) => op.Valid()
      case Count(op) => op.Valid()
    }

    // Everything consumed so far, in order.
    ghost function Consumed(): seq<Byte>
      reads Object()
    {
      match this
      case Locate(op) => op.consumed
      case Count(op) => op.consumed
    }

    // Vectors consumed since the last finished block.
    ghost function Pending(): nat
      reads Object()
    {
      match this
      case Locate(op) => op.pending
      case Count(op) => op.pending
    }

    method VectorPath(src: Vector)
      requires Valid() && Pending() < MaxVectorsPerBlock()
      modifies Object()
      ensures Valid() && Consumed() == old(Consumed()) + src && Pending() == old(Pending()) + 1
    {
      match this
      case Locate(op) => op.VectorPath(src);
      case Count(op) => op.VectorPath(src);
    }

    method ScalarPath(src: Byte)
      requires Valid() && Pending() == 0
      modifies Object()
      ensures Valid() && Consumed() == old(Consumed()) + [src] && Pending() == 0
    {
      match this
      case Locate(op) => op.ScalarPath(src);
      case Count(op) => op.ScalarPath(src);
    }

    method OnBlockFinished(vectorsInBlock: nat)
      requires Valid() && vectorsInBlock == Pending()
      modifies Object()
      ensures Valid() && Consumed() == old(Consumed()) && Pending() == 0
    {
      match this
      case Locate(op) => op.OnBlockFinished(vectorsInBlock);
      case Count(op) => op.OnBlockFinished(vectorsInBlock);
    }
  }

  // One iteration of the unrolled loop: vector_path_2x() forwards to two vector_path() calls in order.
  method VectorStep(op: Operation, unrollFactor: nat, mem: array<Byte>, column: nat)
    requires op.Valid() && (unrollFactor == 1 || unrollFactor == 2) && op.Object() != mem
    requires op.Pending() + unrollFactor <= op.MaxVectorsPerBlock()
    requires column + unrollFactor * LANES <= mem.Length
    modifies op.Object()
    ensures op.Valid() && op.Pending() == old(op.Pending()) + unrollFactor
    ensures op.Consumed() == old(op.Consumed()) + mem[column..column + unrollFactor * LANES]
  {
    hide Operation.Valid, Operation.Consumed, Operation.Pending, Operation.MaxVectorsPerBlock, Operation.Object;
    ghost var was, s := op.Consumed(), mem[..];
    var first: Vector := mem[column..column + 16];
    if unrollFactor == 2 {
      var second: Vector := mem[column + 16..column + 32];
      op.VectorPath(first);
      op.VectorPath(second);
      Adjacent(was, s, column, column + 16, column + 32);
    } else {
      op.VectorPath(first);
    }
  }

  // The number of vectors in a number of iterations.
  function Vectors(unrollFactor: nat, iterations: nat): nat {
    if unrollFactor == 1 then iterations else 2 * iterations
  }

  lemma IterationsOf(unrollFactor: nat, iterations: nat)
    requires unrollFactor == 1 || unrollFactor == 2
    ensures (Vectors(unrollFactor, iterations) * LANES) / (unrollFactor * LANES) == iterations
  {
    if unrollFactor == 1 {} else {}
  }

  // Consuming two adjacent stretches is consuming the stretch they make.
  lemma Adjacent(was: seq<Byte>, s: seq<Byte>, a: nat, b: nat, c: nat)
    requires a <= b <= c <= |s|
    ensures was + s[a..b] + s[b..c] == was + s[a..c]
  {
    assert s[a..b] + s[b..c] == s[a..c];
  }

  // One block: LoopUnroll over a whole number of iterations, then the notification.
  method ProcessBlock(op: Operation, unrollFactor: nat, mem: array<Byte>, column: nat, vectorsInBlock: nat,
                      ghost iterations: nat)
    requires op.Valid() && op.Pending() == 0 && (unrollFactor == 1 || unrollFactor == 2) && op.Object() != mem
    requires vectorsInBlock == Vectors(unrollFactor, iterations) && vectorsInBlock <= op.MaxVectorsPerBlock()
    requires column + vectorsInBlock * LANES <= mem.Length
    modifies op.Object()
    ensures op.Valid() && op.Pending() == 0
    ensures op.Consumed() == old(op.Consumed()) + mem[column..column + vectorsInBlock * LANES]
  {
    hide Operation.Valid, Operation.Consumed, Operation.Pending, Operation.MaxVectorsPerBlock, Operation.Object;
    var step := unrollFactor * LANES;
    var maxIndex := (vectorsInBlock * LANES) / step;
    assert maxIndex == iterations by { IterationsOf(unrollFactor, iterations); }
    var index, at := 0, column;
    ghost var done, was, s := 0, op.Consumed(), mem[..];
    while index < maxIndex
      invariant 0 <= index <= maxIndex && done == Vectors(unrollFactor, index)
      invariant at == column + done * LANES
      invariant op.Valid() && op.Pending() == done
      invariant op.Consumed() == was + s[column..at] && s == mem[..]
    {
      VectorStep(op, unrollFactor, mem, at);
      Adjacent(was, s, column, at, at + step);
      at, index, done := at + step, index + 1, done + unrollFactor;
    }
    op.OnBlockFinished(vectorsInBlock);
  }

  // The size of the next block: whole iterations, at least one, and no more vectors than the operation allows.
  lemma NextBlock(unrollFactor: nat, max: nat, done: nat, total: nat) returns (iterations: nat)
    requires unrollFactor == 1 || unrollFactor == 2
    requires max == 254 || max == 255
    requires done < total
    ensures 0 < iterations <= total - done && Vectors(unrollFactor, iterations) <= max
    ensures Min((max / unrollFactor) * unrollFactor,
                (Vectors(unrollFactor, total) * LANES - Vectors(unrollFactor, done) * LANES) / LANES)
         == Vectors(unrollFactor, iterations)
  {
    if unrollFactor == 1 {
      iterations := Min(max, total - done);
      assert (max / unrollFactor) * unrollFactor == max;
    } else {
      iterations := Min(127, total - done);
      assert (max / unrollFactor) * unrollFactor == 254;
    }
  }

  lemma WholeIterations(unrollFactor: nat, length: nat)
    requires unrollFactor == 1 || unrollFactor == 2
    ensures var size := unrollFactor * LANES;
            && (length / size) * size == Vectors(unrollFactor, length / size) * LANES
            && Vectors(unrollFactor, length / size) * LANES + length % size == length
            && length % size < size
  {
    if unrollFactor == 1 {} else {}
  }

  // RowBasedBlockOperation::process_blocks consumes every full group of vectors exactly once and in order.
  method ProcessBlocks(op: Operation, unrollFactor: nat, mem: array<Byte>, column: nat, length: nat)
    returns (column': nat, length': nat)
    requires op.Valid() && op.Pending() == 0 && (unrollFactor == 1 || unrollFactor == 2) && op.Object() != mem
    requires column + length <= mem.Length
    modifies op.Object()
    ensures op.Valid() && op.Pending() == 0
    ensures column' + length' == column + length && column <= column'
    ensures length' == length % (unrollFactor * LANES)
    ensures op.Consumed() == old(op.Consumed()) + mem[column..column']
  {
    hide Operation.Valid, Operation.Consumed, Operation.Pending, Operation.MaxVectorsPerBlock, Operation.Object;
    var elementsPerIteration := unrollFactor * LANES;
    var processedLength := (length / elementsPerIteration) * elementsPerIteration;
    var maxVectorsPerBlock := (op.MaxVectorsPerBlock() / unrollFactor) * unrollFactor;
    var index := 0;
    column', length' := column, length;
    ghost var was, s, done, total := op.Consumed(), mem[..], 0, length / elementsPerIteration;
    WholeIterations(unrollFactor, length);
    while index < processedLength
      invariant done <= total && index == Vectors(unrollFactor, done) * LANES
      invariant column' == column + index && length' == length - index
      invariant op.Valid() && op.Pending() == 0
      invariant op.Consumed() == was + s[column..column'] && s == mem[..]
    {
      var remainingVectors := (processedLength - index) / LANES;
      var vectorsInBlock := Min(maxVectorsPerBlock, remainingVectors);
      var blockLength := vectorsInBlock * LANES;
      ghost var iterations := NextBlock(unrollFactor, op.MaxVectorsPerBlock(), done, total);
      ProcessBlock(op, unrollFactor, mem, column', vectorsInBlock, iterations);
      Adjacent(was, s, column, column', column' + blockLength);
      column', length' := column' + blockLength, length' - blockLength;
      index, done := index + blockLength, done + iterations;
    }
  }

  // RemainingPathAdapter: element by element.
  method RemainingPath(op: Operation, mem: array<Byte>, column: nat, length: nat)
    requires op.Valid() && op.Pending() == 0 && column + length <= mem.Length && op.Object() != mem
    modifies op.Object()
    ensures op.Valid() && op.Pending() == 0
    ensures op.Consumed() == old(op.Consumed()) + mem[column..column + length]
  {
    hide Operation.Valid, Operation.Consumed, Operation.Pending, Operation.MaxVectorsPerBlock, Operation.Object;
    for index := 0 to length
      invariant op.Valid() && op.Pending() == 0
      invariant op.Consumed() == old(op.Consumed()) + mem[column..column + index]
    {
      op.ScalarPath(mem[column + index]);
      assert mem[column..column + index + 1] == mem[column..column + index] + [mem[column + index]];
    }
  }

  // RowBasedBlockOperation::process_row for any combination of unrolling tags.
  method ProcessRow(op: Operation, unrolledTwice: bool, unrolledOnce: bool, mem: array<Byte>, column: nat, length: nat)
    requires op.Valid() && op.Pending() == 0 && column + length <= mem.Length && op.Object() != mem
    modifies op.Object()
    ensures op.Valid() && op.Pending() == 0
    ensures op.Consumed() == old(op.Consumed()) + mem[column..column + length]
  {
    hide Operation.Valid, Operation.Consumed, Operation.Pending, Operation.MaxVectorsPerBlock, Operation.Object;
    var at, rest := column, length;
    ghost var was, s := op.Consumed(), mem[..];
    if unrolledTwice {
      at, rest := ProcessBlocks(op, 2, mem, at, rest);
    }
    if unrolledOnce {
      ghost var before := at;
      at, rest := ProcessBlocks(op, 1, mem, at, rest);
      Adjacent(was, s, column, before, at);
    }
    RemainingPath(op, mem, at, rest);
    Adjacent(was, s, column, at, at + rest);
  }

  // zip_rows: rows that follow each other without gaps are processed as one row.
  method ApplyByRows(op: Operation, mem: array<Byte>, base: nat, stride: nat, width: nat, height: nat)
    requires op.Valid() && op.Pending() == 0 && op.Object() != mem
    requires Covers(mem.Length, base, stride, width, height)
    modifies op.Object()
    ensures op.Valid() && op.Pending() == 0
    ensures op.Consumed() == old(op.Consumed()) + Pixels(mem[..], base, stride, width, height)
  {
    if stride == width {
      ApplyFlattened(op, mem, base, width, height);
    } else {
      ApplyEachRow(op, mem, base, stride, width, height);
    }
  }

  method ApplyFlattened(op: Operation, mem: array<Byte>, base: nat, width: nat, height: nat)
    requires op.Valid() && op.Pending() == 0 && op.Object() != mem
    requires Covers(mem.Length, base, width, width, height)
    modifies op.Object()
    ensures op.Valid() && op.Pending() == 0
    ensures op.Consumed() == old(op.Consumed()) + Pixels(mem[..], base, width, width, height)
  {
    hide Operation.Valid, Operation.Consumed, Operation.Pending, Operation.MaxVectorsPerBlock, Operation.Object;
    if height == 0 {
      ProcessRow(op, true, false, mem, 0, Area(width, height));
    } else {
      hide Pixels, Covers, Area;
      ContinuousPixels(mem[..], base, width, height);
      ProcessRow(op, true, false, mem, base, Area(width, height));
    }
  }

  method ApplyEachRow(op: Operation, mem: array<Byte>, base: nat, stride: nat, width: nat, height: nat)
    requires op.Valid() && op.Pending() == 0 && op.Object() != mem
    requires Covers(mem.Length, base, stride, width, height)
    modifies op.Object()
    ensures op.Valid() && op.Pending() == 0
    ensures op.Consumed() == old(op.Consumed()) + Pixels(mem[..], base, stride, width, height)
  {
    hide Operation.Valid, Operation.Consumed, Operation.Pending, Operation.MaxVectorsPerBlock, Operation.Object;
    hide Pixels, Covers;
    ghost var was, s := op.Consumed(), mem[..];
    NoPixels(s, base, stride, width);
    for row := 0 to height
      invariant op.Valid() && op.Pending() == 0
      invariant Covers(|s|, base, stride, width, row) && s == mem[..]
      invariant op.Consumed() == was + Pixels(s, base, stride, width, row)
    {
      PixelsStep(s, base, stride, width, height, row);
      var start := RowStart(base, stride, row);
      ProcessRow(op, true, false, mem, start, width);
    }
  }

  // min_max_loc: a null output pointer is modelled by not asking for that output.
  method MinMaxLocate(mem: array?<Byte>, base: nat, stride: nat, width: nat, height: nat, wantMin: bool, wantMax: bool)
    returns (error: Error, minOffset: Option<nat>, maxOffset: Option<nat>)
    requires mem != null ==> Covers(mem.Length, base, stride, width, height)
    ensures error == ImageResult(mem != null, true, width, height)
    ensures error == if mem == null then NullPointer
                     else if width * height >= 0x1_0000_0000_0000 || width == 0 || height == 0 then OutOfRange else Ok
    ensures minOffset.Some? <==> error == Ok && wantMin
    ensures maxOffset.Some? <==> error == Ok && wantMax
    ensures minOffset.Some? ==> IsFirstBestOffset(Smallest, mem[..], base, stride, width, height, minOffset.value)
    ensures maxOffset.Some? ==> IsFirstBestOffset(Largest, mem[..], base, stride, width, height, maxOffset.value)
    ensures minOffset.Some? ==>
              exists row: nat, column: nat |
                row < height && column < width && minOffset.value == PixelAt(0, stride, row, column) ::
                  forall y: nat, x: nat | y < height && x < width ::
                    var best, here := PixelAt(base, stride, row, column), PixelAt(base, stride, y, x);
                    && best < mem.Length && here < mem.Length && mem[best] <= mem[here]
                    && (y < row || (y == row && x < column) ==> mem[best] < mem[here])
    ensures maxOffset.Some? ==>
              exists row: nat, column: nat |
                row < height && column < width && maxOffset.value == PixelAt(0, stride, row, column) ::
                  forall y: nat, x: nat | y < height && x < width ::
                    var best, here := PixelAt(base, stride, row, column), PixelAt(base, stride, y, x);
                    && best < mem.Length && here < mem.Length && mem[here] <= mem[best]
                    && (y < row || (y == row && x < column) ==> mem[here] < mem[best])
  {
    hide IsFirstBestOffset, Covers, PixelAt, ImageSizeAccepted;
    SizeLimit(width, height);
    minOffset, maxOffset := None, None;
    if mem == null {
      return NullPointer, None, None;
    }
    if !ImageSizeAccepted(width, height) || width == 0 || height == 0 {
      return OutOfRange, None, None;
    }
    error := Ok;
    minOffset, maxOffset := SearchPixels(mem, base, stride, width, height, wantMin, wantMax);
    if wantMin {
      OffsetOfSmallest(mem[..], base, stride, width, height, minOffset.value);
    }
    if wantMax {
      OffsetOfLargest(mem[..], base, stride, width, height, maxOffset.value);
    }
  }

  // The search in an image that has pixels.
  method SearchPixels(mem: array<Byte>, base: nat, stride: nat, width: nat, height: nat, wantMin: bool, wantMax: bool)
    returns (minOffset: Option<nat>, maxOffset: Option<nat>)
    requires Covers(mem.Length, base, stride, width, height) && width > 0 && height > 0
    ensures (minOffset.Some? <==> wantMin) && (maxOffset.Some? <==> wantMax)
    ensures wantMin ==> IsFirstBestOffset(Smallest, mem[..], base, stride, width, height, minOffset.value)
    ensures wantMax ==> IsFirstBestOffset(Largest, mem[..], base, stride, width, height, maxOffset.value)
  {
    minOffset, maxOffset := None, None;
    var loc := new MinMaxLoc();
    var op := Locate(loc);
    ApplyByRows(op, mem, base, stride, width, height);
    assert loc.consumed == Pixels(mem[..], base, stride, width, height);
    assert |loc.consumed| > 0 by { RowStartsGrow(0, width, 1, height); }
    if wantMin {
      var index := loc.MinIndex();
      FirstBestOfPixels(Smallest, mem[..], base, stride, width, height, index);
      minOffset := Some(OffsetForIndex(index, width, stride));
    }
    if wantMax {
      var index := loc.MaxIndex();
      FirstBestOfPixels(Largest, mem[..], base, stride, width, height, index);
      maxOffset := Some(OffsetForIndex(index, width, stride));
    }
  }

  // count_nonzeros
  method CountNonZerosOf(mem: array?<Byte>, base: nat, stride: nat, width: nat, height: nat, wantCount: bool)
    returns (error: Error, count: Option<nat>)
    requires mem != null ==> Covers(mem.Length, base, stride, width, height)
    ensures error == if mem == null || !wantCount then NullPointer
                     else if width * height >= 0x1_0000_0000_0000 then OutOfRange else Ok
    ensures count.Some? <==> error == Ok
    ensures count.Some? ==> count.value == NonZeros(Pixels(mem[..], base, stride, width, height))
    ensures count.Some? ==>
              var pixels := Pixels(mem[..], base, stride, width, height);
              count.value == |set i | 0 <= i < |pixels| && pixels[i] != 0|
  {
    SizeLimit(width, height);
    if mem == null || !wantCount {
      return NullPointer, None;
    }
    if !ImageSizeAccepted(width, height) {
      return OutOfRange, None;
    }
    var counter := new CountNonZeros();
    var op := Count(counter);
    ApplyByRows(op, mem, base, stride, width, height);
    assert counter.consumed == Pixels(mem[..], base, stride, width, height);
    var total := counter.Result();
    NonZerosAreCounted(Pixels(mem[..], base, stride, width, height));
    return Ok, Some(total);
  }
}
