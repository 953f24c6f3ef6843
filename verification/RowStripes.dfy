/** Threaded searches over stripes of rows: where stripes start, when a call accepts its rows, and how the calls of all
    stripes compare with one call for the whole image. */
module RowStripes {
  import opened Basics
  import opened Arithmetic
  import opened Images
  import opened Batches

  // --- Where stripes start ----------------------------------------------------------------------

  lemma {:induction false} RowStartShift(base: nat, stride: nat, top: nat, y: nat)
    ensures RowStart(RowStart(base, stride, top), stride, y) == RowStart(base, stride, top + y)
    ensures RowStart(0, stride, y) + RowStart(base, stride, top) == RowStart(base, stride, top + y)
  {
    if y > 0 {
      RowStartShift(base, stride, top, y - 1);
      assert RowStart(base, stride, top + y) == RowStart(base, stride, top + (y - 1)) + stride;
    }
  }

  lemma StripeIsCovered(size: nat, stride: nat, width: nat, height: nat, begin: nat, end: nat)
    requires Covers(size, 0, stride, width, height) && begin <= end <= height
    ensures Covers(size, RowStart(0, stride, begin), stride, width, end - begin)
  {
    if begin < end {
      RowStartShift(0, stride, begin, end - begin - 1);
      RowStartsGrow(0, stride, end - 1, height - 1);
    }
  }

  // Every stripe of an accepted image is accepted.
  lemma StripeIsAccepted(width: nat, height: nat, rows: nat)
    requires ImageSizeAccepted(width, height) && rows <= height
    ensures ImageSizeAccepted(width, rows)
  {
    MulMonotone(rows, height, width);
    assert width * rows == rows * width && width * height == height * width;
  }

  // --- What the calls return --------------------------------------------------------------------

  // The call for a stripe. The address of a stripe is computed from that of the source: without a source it is null
  // only if the stripe starts at distance zero, and otherwise an address at which there is no image. A call that
  // passes all checks with such an address reads there, which is the result None.
  function StripeResult(present: bool, strideAligned: bool, stride: nat, width: nat, rows: Range): Option<Error> {
    var notNull := present || RowStart(0, stride, rows.begin) != 0;
    var height := if rows.begin < rows.end then rows.end - rows.begin else 0;
    var result := ImageResult(notNull, strideAligned, width, height);
    if result == Ok && !present then None else Some(result)
  }

  // Every call reads its image only.
  ghost predicate StayInside(present: bool, strideAligned: bool, stride: nat, width: nat, batches: seq<Range>) {
    forall k :: 0 <= k < |batches| ==> StripeResult(present, strideAligned, stride, width, batches[k]).Some?
  }

  ghost predicate AllSucceed(present: bool, strideAligned: bool, stride: nat, width: nat, batches: seq<Range>) {
    forall k :: 0 <= k < |batches| ==> StripeResult(present, strideAligned, stride, width, batches[k]) == Some(Ok)
  }

  // What the scheduler returns: success if every call succeeds, and otherwise what some call returned.
  ghost predicate IsCallResult(present: bool, strideAligned: bool, stride: nat, width: nat, batches: seq<Range>,
                               error: Error)
  {
    if error == Ok then AllSucceed(present, strideAligned, stride, width, batches)
    else exists k ::
           0 <= k < |batches| && StripeResult(present, strideAligned, stride, width, batches[k]) == Some(error)
  }

  // With a source every call stays inside. Without one, every call does if and only if there is no acceptable stripe at
  // a distance from the missing source.
  lemma WhenInside(present: bool, strideAligned: bool, stride: nat, width: nat, batches: seq<Range>)
    ensures StayInside(present, strideAligned, stride, width, batches)
       <==> present || forall k :: 0 <= k < |batches| && RowStart(0, stride, batches[k].begin) != 0 ==>
                         StripeResult(true, strideAligned, stride, width, batches[k]) != Some(Ok)
  {
    forall k | 0 <= k < |batches|
      ensures StripeResult(false, strideAligned, stride, width, batches[k]).Some?
         <==> (RowStart(0, stride, batches[k].begin) != 0 ==>
                 StripeResult(true, strideAligned, stride, width, batches[k]) != Some(Ok))
    {
    }
  }

  // The stripe at the very beginning notices a missing source.
  lemma NeverSucceedsWithoutSource(strideAligned: bool, stride: nat, width: nat, schedule: seq<Range>, height: nat)
    requires IsPartition(schedule, TaskCount(height, 1))
    ensures !AllSucceed(false, strideAligned, stride, width, BatchesOf(schedule, height, 1))
  {
    var batches := BatchesOf(schedule, height, 1);
    BatchesSplit(schedule, height, 1);
    assert StripeResult(false, strideAligned, stride, width, batches[0]) != Some(Ok);
  }

  // The calls of the stripes succeed where the single call does, and never for an image without pixels.
  lemma WhenSingleCallSucceeds(strideAligned: bool, stride: nat, width: nat, schedule: seq<Range>, height: nat)
    requires IsPartition(schedule, TaskCount(height, 1))
    ensures ImageResult(true, strideAligned, width, height) == Ok ==>
              AllSucceed(true, strideAligned, stride, width, BatchesOf(schedule, height, 1))
    ensures AllSucceed(true, strideAligned, stride, width, BatchesOf(schedule, height, 1)) ==>
              width > 0 && height > 0 && ImageSizeAccepted(width, 1)
  {
    hide ImageSizeAccepted, TaskCount, BatchesOf;
    var batches := BatchesOf(schedule, height, 1);
    BatchesSplit(schedule, height, 1);
    if AllSucceed(true, strideAligned, stride, width, batches) {
      assert StripeResult(true, strideAligned, stride, width, batches[0]) == Some(Ok);
      StripeIsAccepted(width, batches[0].end - batches[0].begin, 1);
    }
    if ImageResult(true, strideAligned, width, height) == Ok {
      forall k | 0 <= k < |batches| ensures StripeResult(true, strideAligned, stride, width, batches[k]) == Some(Ok) {
        StripeIsAccepted(width, height, batches[k].end - batches[k].begin);
      }
    }
  }

  // With this schedule, the threaded call succeeds if and only if the single call does.
  ghost predicate SucceedsAsSingleCall(strideAligned: bool, stride: nat, width: nat, height: nat,
                                       schedule: seq<Range>)
  {
    AllSucceed(true, strideAligned, stride, width, BatchesOf(schedule, height, 1))
    <==> ImageResult(true, strideAligned, width, height) == Ok
  }

  // Threaded and single call succeed together for every schedule if and only if the single call accepts the size and
  // the stride of the image, or the image has no pixels or a row that is too large by itself.
  lemma AgreesWithSingleCall(strideAligned: bool, stride: nat, width: nat, height: nat)
    ensures (forall schedule | IsPartition(schedule, TaskCount(height, 1)) ::
               SucceedsAsSingleCall(strideAligned, stride, width, height, schedule))
       <==> || (width * height < 0x1_0000_0000_0000 && (height <= 1 || strideAligned))
            || width == 0 || height == 0 || width >= 0x1_0000_0000_0000
  {
    SizeLimit(width, height);
    SizeLimit(width, 1);
    hide ImageSizeAccepted, TaskCount, BatchesOf, AllSucceed;
    forall schedule | IsPartition(schedule, TaskCount(height, 1))
      ensures || (ImageSizeAccepted(width, height) && (height <= 1 || strideAligned))
              || width == 0 || height == 0 || !ImageSizeAccepted(width, 1)
              ==> SucceedsAsSingleCall(strideAligned, stride, width, height, schedule)
    {
      WhenSingleCallSucceeds(strideAligned, stride, width, schedule, height);
      if !ImageSizeAccepted(width, 1) && height > 0 && ImageSizeAccepted(width, height) {
        StripeIsAccepted(width, height, 1);
      }
    }
    if width > 0 && height > 0 && ImageSizeAccepted(width, 1) {
      SingleRowsPartition(height);
      SingleRowsSucceed(strideAligned, stride, width, height);
      assert SucceedsAsSingleCall(strideAligned, stride, width, height, Singletons(height))
        <==> ImageResult(true, strideAligned, width, height) == Ok;
    }
  }

  lemma SingleRowsSucceed(strideAligned: bool, stride: nat, width: nat, height: nat)
    requires width > 0 && ImageSizeAccepted(width, 1)
    ensures AllSucceed(true, strideAligned, stride, width, Singletons(height))
  {
  }

  // Where the single call accepts the size and the stride, or refuses only an empty image, the scheduler returns the
  // same.
  lemma SameResult(strideAligned: bool, stride: nat, width: nat, schedule: seq<Range>, height: nat, error: Error)
    requires IsPartition(schedule, TaskCount(height, 1))
    requires ImageSizeAccepted(width, height) && (height <= 1 || strideAligned)
    requires IsCallResult(true, strideAligned, stride, width, BatchesOf(schedule, height, 1), error)
    ensures error == ImageResult(true, strideAligned, width, height)
  {
    hide ImageSizeAccepted, TaskCount, BatchesOf;
    var batches := BatchesOf(schedule, height, 1);
    BatchesSplit(schedule, height, 1);
    WhenSingleCallSucceeds(strideAligned, stride, width, schedule, height);
    forall k | 0 <= k < |batches|
      ensures StripeResult(true, strideAligned, stride, width, batches[k]) in {Some(Ok), Some(OutOfRange)}
    {
    }
  }

  // The scheduler remembers a failure, and forgets an earlier one.
  lemma OneMoreCall(present: bool, strideAligned: bool, stride: nat, width: nat, batches: seq<Range>, k: nat,
                    error: Error)
    requires k < |batches| && StripeResult(present, strideAligned, stride, width, batches[k]).Some?
    requires StayInside(present, strideAligned, stride, width, batches[..k])
    requires IsCallResult(present, strideAligned, stride, width, batches[..k], error)
    ensures var stripe := StripeResult(present, strideAligned, stride, width, batches[k]).value;
            && StayInside(present, strideAligned, stride, width, batches[..k + 1])
            && IsCallResult(present, strideAligned, stride, width, batches[..k + 1],
                            if stripe != Ok then stripe else error)
  {
    hide StripeResult;
    var calls := batches[..k + 1];
    assert calls[k] == batches[k] && forall j :: 0 <= j < k ==> calls[j] == batches[..k][j];
    if error != Ok {
      var j :| 0 <= j < k && StripeResult(present, strideAligned, stride, width, batches[..k][j]) == Some(error);
      assert StripeResult(present, strideAligned, stride, width, calls[j]) == Some(error);
    }
  }

  // --- Inputs on which the calls differ ---------------------------------------------------------

  // With one task per row, single tasks are single rows.
  lemma SingleRowsPartition(height: nat)
    requires height > 0
    ensures IsPartition(Singletons(height), TaskCount(height, 1))
    ensures BatchesOf(Singletons(height), height, 1) == Singletons(height)
  {
    SingletonsPartition(height);
  }

  // An image of 2^40 columns and 512 rows is too large for a single call, but not for one call per row.
  lemma OversizedImage(stride: nat)
    ensures ImageResult(true, true, 0x100_0000_0000, 0x200) == OutOfRange
    ensures IsPartition(Singletons(0x200), TaskCount(0x200, 1))
    ensures AllSucceed(true, true, stride, 0x100_0000_0000, BatchesOf(Singletons(0x200), 0x200, 1))
  {
    SingleRowsPartition(0x200);
  }

  // A single call refuses an odd stride for elements of two bytes, but calls for single rows have no use for it.
  lemma MisalignedStride(stride: nat)
    ensures ImageResult(true, false, 1, 2) == Alignment
    ensures IsPartition(Singletons(2), TaskCount(2, 1))
    ensures AllSucceed(true, false, stride, 1, BatchesOf(Singletons(2), 2, 1))
  {
    SingleRowsPartition(2);
  }

  // Without a source the second of two rows has an address, and its call reads there; a single call returns an error.
  lemma MissingSource()
    ensures ImageResult(false, true, 1, 2) == NullPointer
    ensures IsPartition(Singletons(2), TaskCount(2, 1))
    ensures !StayInside(false, true, 1, 1, BatchesOf(Singletons(2), 2, 1))
  {
    SingleRowsPartition(2);
    var batches := BatchesOf(Singletons(2), 2, 1);
    assert batches[1] == Range(1, 2) && RowStart(0, 1, 1) == RowStart(0, 1, 0) + 1;
    assert StripeResult(false, true, 1, 1, batches[1]).None?;
  }
}
