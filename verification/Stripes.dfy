/** Operations split into stripes: rotations by columns, and colour conversion of pairs of rows. */
module Stripes {
  import opened Basics
  import opened Arithmetic
  import opened Batches

  // --- Rotation ---------------------------------------------------------------------------------

  // The destination of a pixel when an image of the given size is rotated by a quarter turn.
  function Target(clockwise: bool, width: nat, height: nat, row: int, column: int): (int, int) {
    if clockwise then (column, height - 1 - row) else (width - 1 - column, row)
  }

  // rotate_is_implemented
  predicate IsRotateImplemented(sameBuffer: bool, angle: int, pixelSize: nat) {
    angle in {90, -90, 270} && !sameBuffer && pixelSize in {1, 2, 3, 4, 6, 8}
  }

  // kleidicv_rotate on an image of its own, as documented: images that are too large are refused.
  method Rotate<V>(clockwise: bool, width: nat, height: nat, src: array2<V>, srcColumn: nat, dst: array2<V>,
                   dstRow: nat)
    returns (error: Error)
    requires src != dst && height <= src.Length0 && srcColumn + width <= src.Length1
    requires dstRow + width <= dst.Length0 && height <= dst.Length1
    modifies dst
    ensures error == if ImageSizeAccepted(width, height) then Ok else OutOfRange
    ensures error == Ok ==>
              forall row, column :: 0 <= row < height && 0 <= column < width ==>
                var to := Target(clockwise, width, height, row, column);
                dst[dstRow + to.0, to.1] == src[row, srcColumn + column]
    ensures forall r, c | 0 <= r < dst.Length0 && 0 <= c < dst.Length1
                          && (error != Ok || !(dstRow <= r < dstRow + width && c < height)) ::
              dst[r, c] == old(dst[r, c])
  {
    if !ImageSizeAccepted(width, height) {
      return OutOfRange;
    }
    forall r, c | dstRow <= r < dstRow + width && 0 <= c < height {
      dst[r, c] := if clockwise then src[height - 1 - c, srcColumn + (r - dstRow)]
                   else src[c, srcColumn + (dstRow + width - 1 - r)];
    }
    error := Ok;
  }

  // The row of the destination at which a stripe of columns starts.
  function DstRow(clockwise: bool, width: nat, stripe: Range): int {
    if clockwise then stripe.begin else width - stripe.end
  }

  // A pixel of a stripe goes where it goes in the whole image.
  lemma StripeTarget(clockwise: bool, width: nat, height: nat, stripe: Range, row: int, column: int)
    requires stripe.begin <= stripe.end
    ensures var inStripe := Target(clockwise, stripe.end - stripe.begin, height, row, column - stripe.begin);
            (DstRow(clockwise, width, stripe) + inStripe.0, inStripe.1) == Target(clockwise, width, height, row, column)
  {
  }

  // The stripe is small enough to be rotated.
  predicate IsAccepted(stripe: Range, height: nat) {
    stripe.begin <= stripe.end && ImageSizeAccepted(stripe.end - stripe.begin, height)
  }

  // Pixels of those of the first n stripes that could be rotated are in place.
  ghost predicate StripesInPlace<V>(clockwise: bool, width: nat, height: nat, src: array2<V>, dst: array2<V>,
                                    batches: seq<Range>, n: nat)
    reads src, dst
    requires height <= src.Length0 && width <= src.Length1 && width <= dst.Length0 && height <= dst.Length1
    requires n <= |batches| && forall k :: 0 <= k < |batches| ==> batches[k].begin <= batches[k].end <= width
  {
    forall k, row, column ::
      0 <= k < n && IsAccepted(batches[k], height) && 0 <= row < height && InRange(batches[k], column) ==>
        var to := Target(clockwise, width, height, row, column);
        dst[to.0, to.1] == src[row, column]
  }

  // kleidicv_thread_rotate: the call succeeds if and only if it is implemented and no stripe is too large; then, for
  // every schedule, the destination is the rotation of the whole source.
  method RotateInStripes<V>(angle: int, pixelSize: nat, width: nat, height: nat, src: array2<V>, dst: array2<V>,
                            schedule: seq<Range>)
    returns (error: Error)
    requires height <= src.Length0 && width <= src.Length1 && width <= dst.Length0 && height <= dst.Length1
    requires IsPartition(schedule, TaskCount(width, 64))
    modifies dst
    ensures error == if src == dst || angle !in {90, -90, 270} || pixelSize !in {1, 2, 3, 4, 6, 8} then NotImplemented
                     else if forall b :: b in BatchesOf(schedule, width, 64) ==>
                               (b.end - b.begin) * height < 0x1_0000_0000_0000 then Ok
                     else OutOfRange
    ensures forall r, c | 0 <= r < dst.Length0 && 0 <= c < dst.Length1
                          && (error == NotImplemented || !(r < width && c < height)) ::
              dst[r, c] == old(dst[r, c])
    ensures error == Ok ==>
              forall row, column :: 0 <= row < height && 0 <= column < width ==>
                src[row, column] == if angle == 90 then dst[column, height - 1 - row] else dst[width - 1 - column, row]
  {
    if !IsRotateImplemented(src == dst, angle, pixelSize) {
      return NotImplemented;
    }
    var batches := BatchesOf(schedule, width, 64);
    BatchesSplit(schedule, width, 64);
    hide IsCovered, BatchesOf, TaskCount, IsAccepted;
    error := Ok;
    for n := 0 to |batches|
      invariant StripesInPlace(angle == 90, width, height, src, dst, batches, n)
      invariant forall r, c | 0 <= r < dst.Length0 && 0 <= c < dst.Length1 && !(r < width && c < height) ::
                  dst[r, c] == old(dst[r, c])
      invariant error == if forall k :: 0 <= k < n ==> IsAccepted(batches[k], height) then Ok else OutOfRange
    {
      var stripe := RotateStripe(angle == 90, width, height, src, dst, batches, n);
      if stripe != Ok {
        error := stripe;
      }
    }
    AcceptedSizes(batches, width, height);
    if error == Ok {
      forall row, column | 0 <= row < height && 0 <= column < width
        ensures src[row, column]
             == if angle == 90 then dst[column, height - 1 - row] else dst[width - 1 - column, row]
      {
        ColumnIsCovered(batches, width, column);
        var k :| 0 <= k < |batches| && InRange(batches[k], column);
      }
    }
  }

  lemma AcceptedSizes(batches: seq<Range>, width: nat, height: nat)
    requires IsSplit(batches, width)
    ensures (forall k :: 0 <= k < |batches| ==> IsAccepted(batches[k], height))
       <==> forall b :: b in batches ==> (b.end - b.begin) * height < 0x1_0000_0000_0000
  {
    hide IsCovered;
    forall k | 0 <= k < |batches|
      ensures IsAccepted(batches[k], height) <==> (batches[k].end - batches[k].begin) * height < 0x1_0000_0000_0000
    {
      SizeLimit(batches[k].end - batches[k].begin, height);
    }
  }

  lemma ColumnIsCovered(batches: seq<Range>, width: nat, column: nat)
    requires IsPartition(batches, width) && column < width
    ensures exists k :: 0 <= k < |batches| && InRange(batches[k], column)
  {
    assert IsCovered(batches, column);
  }

  method RotateStripe<V>(clockwise: bool, width: nat, height: nat, src: array2<V>, dst: array2<V>,
                         batches: seq<Range>, n: nat)
    returns (error: Error)
    requires src != dst && height <= src.Length0 && width <= src.Length1
    requires width <= dst.Length0 && height <= dst.Length1
    requires IsSplit(batches, width) && n < |batches|
    requires StripesInPlace(clockwise, width, height, src, dst, batches, n)
    modifies dst
    ensures error == if IsAccepted(batches[n], height) then Ok else OutOfRange
    ensures StripesInPlace(clockwise, width, height, src, dst, batches, n + 1)
    ensures forall r, c | 0 <= r < dst.Length0 && 0 <= c < dst.Length1 && !(r < width && c < height) ::
              dst[r, c] == old(dst[r, c])
  {
    hide IsCovered, ImageSizeAccepted;
    var b := batches[n];
    var dstRow := DstRow(clockwise, width, b);
    label before:
    error := Rotate(clockwise, b.end - b.begin, height, src, b.begin, dst, dstRow);
    forall k, row, column | 0 <= k < n + 1 && IsAccepted(batches[k], height) && 0 <= row < height
                            && InRange(batches[k], column)
      ensures var to := Target(clockwise, width, height, row, column); dst[to.0, to.1] == src[row, column]
    {
      StripeTarget(clockwise, width, height, b, row, column);
      var to := Target(clockwise, width, height, row, column);
      if k == n {
        var inStripe := Target(clockwise, b.end - b.begin, height, row, column - b.begin);
        assert dst[dstRow + inStripe.0, inStripe.1] == src[row, b.begin + (column - b.begin)];
      } else {
        assert !InRange(b, column);
        assert dst[to.0, to.1] == old@before(dst[to.0, to.1]);
      }
    }
  }

  // With this schedule, the threaded rotation succeeds if and only if a single one does.
  ghost predicate RotatesAsSingleCall(width: nat, height: nat, schedule: seq<Range>) {
    (forall b :: b in BatchesOf(schedule, width, 64) ==> IsAccepted(b, height)) <==> ImageSizeAccepted(width, height)
  }

  // The width of the stripe of the last task alone, which is the widest of all single tasks.
  function LastStripe(width: nat): (last: nat)
    ensures last <= width && (width >= 64 ==> last >= 64)
  {
    assert TaskCount(width, 64) >= 1 && width >= (TaskCount(width, 64) - 1) * 64;
    width - (TaskCount(width, 64) - 1) * 64
  }

  lemma NarrowerIsAccepted(narrow: nat, width: nat, height: nat)
    requires narrow <= width && ImageSizeAccepted(width, height)
    ensures ImageSizeAccepted(narrow, height)
  {
    MulMonotone(narrow, width, height);
  }

  // Threaded and single rotation succeed together for every schedule if and only if the size of the whole image is
  // accepted, or not even the stripe of the last task is.
  lemma RotationsAgree(width: nat, height: nat)
    ensures (forall schedule | IsPartition(schedule, TaskCount(width, 64)) ::
               RotatesAsSingleCall(width, height, schedule))
       <==> width * height < 0x1_0000_0000_0000
            || height * (if width < 64 then width else 64 + width % 64) >= 0x1_0000_0000_0000
  {
    SizeLimit(width, height);
    SizeLimit(LastStripe(width), height);
    forall schedule | IsPartition(schedule, TaskCount(width, 64))
      ensures ImageSizeAccepted(width, height) || !ImageSizeAccepted(LastStripe(width), height)
              ==> RotatesAsSingleCall(width, height, schedule)
    {
      if ImageSizeAccepted(width, height) || !ImageSizeAccepted(LastStripe(width), height) {
        AgreesOnSchedule(width, height, schedule);
      }
    }
    if !ImageSizeAccepted(width, height) && ImageSizeAccepted(LastStripe(width), height) {
      SingletonsPartition(TaskCount(width, 64));
      SingleTasksAccepted(width, height);
      assert !RotatesAsSingleCall(width, height, Singletons(TaskCount(width, 64)));
    }
  }

  lemma AgreesOnSchedule(width: nat, height: nat, schedule: seq<Range>)
    requires IsPartition(schedule, TaskCount(width, 64))
    requires ImageSizeAccepted(width, height) || !ImageSizeAccepted(LastStripe(width), height)
    ensures RotatesAsSingleCall(width, height, schedule)
  {
    hide ImageSizeAccepted;
    var batches := BatchesOf(schedule, width, 64);
    BatchesSplit(schedule, width, 64);
    if ImageSizeAccepted(width, height) {
      forall k | 0 <= k < |batches| ensures IsAccepted(batches[k], height) {
        NarrowerIsAccepted(batches[k].end - batches[k].begin, width, height);
      }
    } else {
      var last := TaskCount(width, 64) - 1;
      assert IsCovered(schedule, last);
      var k :| 0 <= k < |schedule| && InRange(schedule[k], last);
      MulMonotone(schedule[k].begin, last, 64);
      if IsAccepted(batches[k], height) {
        NarrowerIsAccepted(LastStripe(width), batches[k].end - batches[k].begin, height);
      }
      assert batches[k] in batches;
    }
  }

  lemma SingleTasksAccepted(width: nat, height: nat)
    requires ImageSizeAccepted(LastStripe(width), height)
    ensures forall b :: b in BatchesOf(Singletons(TaskCount(width, 64)), width, 64) ==> IsAccepted(b, height)
  {
    hide ImageSizeAccepted;
    var batches := BatchesOf(Singletons(TaskCount(width, 64)), width, 64);
    forall k | 0 <= k < |batches| ensures IsAccepted(batches[k], height) {
      NarrowerIsAccepted(batches[k].end - batches[k].begin, LastStripe(width), height);
    }
  }

  // An image of 128 columns and 2^41 rows is too large for a single rotation, but not in two stripes.
  lemma OversizedRotation()
    ensures !ImageSizeAccepted(128, 0x200_0000_0000) && IsPartition(Singletons(2), TaskCount(128, 64))
    ensures forall b :: b in BatchesOf(Singletons(2), 128, 64) ==> IsAccepted(b, 0x200_0000_0000)
  {
    SingletonsPartition(2);
    SingleTasksAccepted(128, 0x200_0000_0000);
  }

  // --- Pairs of rows ----------------------------------------------------------------------------

  // The luma rows of a stripe of chroma rows; an odd last row has its chroma row to itself.
  function LumaRows(stripe: Range, height: nat): Range {
    Range(stripe.begin * 2, Min(height, stripe.end * 2))
  }

  // Every luma row is converted exactly once, in the stripe of its chroma row.
  lemma LumaRowsPartition(schedule: seq<Range>, height: nat)
    requires height > 0 && IsPartition(schedule, TaskCount((height + 1) / 2, 1))
    ensures IsPartition(seq(|schedule|, k requires 0 <= k < |schedule| =>
                              var chroma := BatchOf(schedule[k], (height + 1) / 2, 1);
                              Range(2 * chroma.begin, if 2 * chroma.end < height then 2 * chroma.end else height)),
                        height)
  {
    var chromaRows := (height + 1) / 2;
    var batches := BatchesOf(schedule, chromaRows, 1);
    BatchesPartition(schedule, chromaRows, 1);
    hide BatchOf, TaskCount;
    var luma := seq(|schedule|, k requires 0 <= k < |schedule| =>
                      LumaRows(BatchOf(schedule[k], chromaRows, 1), height));
    assert luma == seq(|schedule|, k requires 0 <= k < |schedule| =>
                         var chroma := BatchOf(schedule[k], chromaRows, 1);
                         Range(2 * chroma.begin, if 2 * chroma.end < height then 2 * chroma.end else height));
    forall k, y | 0 <= k < |luma| && 0 <= y < height
      ensures luma[k] == LumaRows(batches[k], height)
      ensures InRange(luma[k], y) <==> InRange(batches[k], y / 2)
    {
    }
    forall k | 0 <= k < |luma| ensures luma[k].begin < luma[k].end <= height {
      assert batches[k].begin < batches[k].end <= chromaRows;
      assert luma[k] == LumaRows(batches[k], height);
    }
    forall y | 0 <= y < height ensures IsCovered(luma, y) {
      assert IsCovered(batches, y / 2);
      var k :| 0 <= k < |batches| && InRange(batches[k], y / 2);
      assert InRange(luma[k], y);
    }
    forall y, j, k | 0 <= j < |luma| && 0 <= k < |luma| && InRange(luma[j], y) && InRange(luma[k], y) ensures j == k {
      assert luma[j] == LumaRows(batches[j], height);
      assert InRange(batches[j], y / 2) && InRange(batches[k], y / 2);
    }
  }

  // Within a stripe, the row offsets of the callback pair luma row y with chroma row y / 2.
  lemma ChromaRowOfStripe(stripe: Range, height: nat, y: nat)
    requires InRange(LumaRows(stripe, height), y)
    ensures stripe.begin + (y - LumaRows(stripe, height).begin) / 2 == y / 2
    ensures InRange(stripe, y / 2)
  {
  }
}
