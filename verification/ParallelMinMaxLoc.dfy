/** The threaded minimum/maximum location: stripes of rows are searched in any order, one result slot per row, and
    the slots are reduced to the location a single search would find. */
module ParallelMinMaxLoc {
  import opened Basics
  import opened Arithmetic
  import opened Extremum
  import opened Images
  import opened Batches
  import opened RowStripes
  import opened BlockOperation

  // --- Stripes of an image ----------------------------------------------------------------------

  // The first best pixel of a taller image, from those of its top and of the stripe below.
  lemma StripeBelow(d: Direction, mem: seq<Byte>, stride: nat, width: nat, top: nat, total: nat,
                    row: nat, column: nat, row': nat, column': nat)
    requires top <= total && Covers(|mem|, 0, stride, width, total)
    requires Covers(|mem|, 0, stride, width, top) && Covers(|mem|, RowStart(0, stride, top), stride, width, total - top)
    requires IsFirstBestPixel(d, mem, 0, stride, width, top, row, column)
    requires IsFirstBestPixel(d, mem, RowStart(0, stride, top), stride, width, total - top, row', column')
    ensures PixelAt(0, stride, row, column) < |mem| && PixelAt(0, stride, top + row', column') < |mem|
    ensures if Better(d, mem[PixelAt(0, stride, top + row', column')], mem[PixelAt(0, stride, row, column)])
            then IsFirstBestPixel(d, mem, 0, stride, width, total, top + row', column')
            else IsFirstBestPixel(d, mem, 0, stride, width, total, row, column)
  {
    var best, best' := PixelAt(0, stride, row, column), PixelAt(0, stride, top + row', column');
    assert Withstands(d, mem, best, best, IsEarlier(row, column, row, column));
    StripePixel(d, mem, stride, width, top, total, row', column', top + row', column');
    forall y: nat, x: nat | y < total && x < width
      ensures y < top ==> Withstands(d, mem, best, PixelAt(0, stride, y, x), IsEarlier(y, x, row, column))
      ensures y >= top ==> Withstands(d, mem, best', PixelAt(0, stride, y, x), IsEarlier(y, x, top + row', column'))
    {
      if y >= top {
        StripePixel(d, mem, stride, width, top, total, row', column', y, x);
      }
    }
  }

  lemma StripePixel(d: Direction, mem: seq<Byte>, stride: nat, width: nat, top: nat, total: nat,
                    row': nat, column': nat, y: nat, x: nat)
    requires top <= y < total && x < width
    requires Covers(|mem|, RowStart(0, stride, top), stride, width, total - top)
    requires IsFirstBestPixel(d, mem, RowStart(0, stride, top), stride, width, total - top, row', column')
    ensures Withstands(d, mem, PixelAt(0, stride, top + row', column'), PixelAt(0, stride, y, x),
                       IsEarlier(y, x, top + row', column'))
  {
    var base := RowStart(0, stride, top);
    RowStartShift(0, stride, top, row');
    RowStartShift(0, stride, top, y - top);
    assert Withstands(d, mem, PixelAt(base, stride, row', column'), PixelAt(base, stride, y - top, x),
                      IsEarlier(y - top, x, row', column'));
  }

  // --- The result slots -------------------------------------------------------------------------

  // Every batch has left its result in the slot of its first row; all other slots hold the initial zero.
  ghost predicate SlotsHold(d: Direction, mem: seq<Byte>, stride: nat, width: nat, height: nat,
                            slots: seq<nat>, batches: seq<Range>)
    requires Covers(|mem|, 0, stride, width, height)
  {
    && height <= |slots|
    && (forall k :: 0 <= k < |batches| ==> SlotHolds(d, mem, stride, width, height, slots, batches[k]))
    && (forall i :: 0 <= i < height && !IsBatchStart(batches, i) ==> slots[i] == 0)
  }

  ghost predicate IsBatchStart(batches: seq<Range>, i: nat) {
    exists k :: 0 <= k < |batches| && batches[k].begin == i
  }

  ghost predicate SlotHolds(d: Direction, mem: seq<Byte>, stride: nat, width: nat, height: nat,
                            slots: seq<nat>, batch: Range)
    requires Covers(|mem|, 0, stride, width, height)
  {
    && batch.begin < batch.end <= height <= |slots|
    && Covers(|mem|, RowStart(0, stride, batch.begin), stride, width, batch.end - batch.begin)
    && IsFirstBestOffset(d, mem, RowStart(0, stride, batch.begin), stride, width, batch.end - batch.begin,
        slots[batch.begin])
  }

  // The slots address pixels of the memory.
  ghost predicate SlotsInBounds(size: nat, stride: nat, slots: seq<nat>, count: nat) {
    count <= |slots| && forall i :: 0 <= i < count ==> slots[i] + RowStart(0, stride, i) < size
  }

  // The search has looked at whole batches only: the first top rows.
  ghost predicate Reduced(d: Direction, mem: seq<Byte>, stride: nat, width: nat, height: nat, batches: seq<Range>,
                          i: nat, top: nat, result: nat)
    requires Covers(|mem|, 0, stride, width, height)
  {
    && i <= top <= height
    && (if i == 0 then top == 0 && result == 0 else
         && (exists k :: 0 <= k < |batches| && InRange(batches[k], i - 1) && batches[k].end == top)
         && Covers(|mem|, 0, stride, width, top)
         && IsFirstBestOffset(d, mem, 0, stride, width, top, result))
  }

  // One iteration of the reduction.
  lemma ReduceStep(d: Direction, mem: seq<Byte>, stride: nat, width: nat, height: nat, slots: seq<nat>,
                   batches: seq<Range>, i: nat, top: nat, result: nat)
    returns (top': nat)
    requires Covers(|mem|, 0, stride, width, height) && i < height && width > 0
    requires IsPartition(batches, height) && SlotsHold(d, mem, stride, width, height, slots, batches)
    requires Reduced(d, mem, stride, width, height, batches, i, top, result)
    ensures slots[i] + RowStart(0, stride, i) < |mem| && result < |mem|
    ensures var offset := slots[i] + RowStart(0, stride, i);
            Reduced(d, mem, stride, width, height, batches, i + 1, top',
                    if Better(d, mem[offset], mem[result]) then offset else result)
  {
    hide SlotHolds, IsFirstBestPixel, Covers;
    if i < top {
      var k :| 0 <= k < |batches| && InRange(batches[k], i - 1) && batches[k].end == top;
      assert InRange(batches[k], i);
      UnwrittenSlot(batches, height, k, i);
      FirstPixelOfRow(d, mem, stride, width, height, top, i, result);
      top' := top;
    } else {
      assert IsCovered(batches, i);
      var k :| 0 <= k < |batches| && InRange(batches[k], i);
      BatchBeginsHere(batches, height, k, i);
      WrittenSlot(d, mem, stride, width, height, slots, batches[k], i, result);
      top' := batches[k].end;
    }
  }

  // Inside a batch nothing is written: the slot reads as the first pixel of its row, which is no improvement.
  lemma UnwrittenSlot(batches: seq<Range>, height: nat, k: nat, i: nat)
    requires IsPartition(batches, height) && k < |batches| && InRange(batches[k], i - 1) && InRange(batches[k], i)
    ensures !IsBatchStart(batches, i)
  {
    if IsBatchStart(batches, i) {
      var j :| 0 <= j < |batches| && batches[j].begin == i;
      assert InRange(batches[j], i);
    }
  }

  lemma FirstPixelOfRow(d: Direction, mem: seq<Byte>, stride: nat, width: nat, height: nat, top: nat, i: nat,
                        result: nat)
    requires Covers(|mem|, 0, stride, width, height) && Covers(|mem|, 0, stride, width, top)
    requires i < top <= height && width > 0 && IsFirstBestOffset(d, mem, 0, stride, width, top, result)
    ensures RowStart(0, stride, i) < |mem| && result < |mem|
    ensures !Better(d, mem[RowStart(0, stride, i)], mem[result])
  {
    var row: nat, column: nat :| IsFirstBestPixel(d, mem, 0, stride, width, top, row, column)
                                 && result == PixelAt(0, stride, row, column);
    PixelInBounds(|mem|, 0, stride, width, top, row, column);
    PixelInBounds(|mem|, 0, stride, width, top, i, 0);
    assert PixelAt(0, stride, i, 0) == RowStart(0, stride, i);
  }

  lemma BatchBeginsHere(batches: seq<Range>, height: nat, k: nat, i: nat)
    requires IsPartition(batches, height) && k < |batches| && InRange(batches[k], i)
    requires i > 0 ==> exists j :: 0 <= j < |batches| && InRange(batches[j], i - 1) && batches[j].end == i
    ensures batches[k].begin == i
  {
    if batches[k].begin < i {
      assert InRange(batches[k], i - 1);
    }
  }

  lemma WrittenSlot(d: Direction, mem: seq<Byte>, stride: nat, width: nat, height: nat, slots: seq<nat>,
                    batch: Range, i: nat, result: nat)
    requires Covers(|mem|, 0, stride, width, height) && i == batch.begin && width > 0
    requires SlotHolds(d, mem, stride, width, height, slots, batch)
    requires if i == 0 then result == 0
             else Covers(|mem|, 0, stride, width, i) && IsFirstBestOffset(d, mem, 0, stride, width, i, result)
    ensures Covers(|mem|, 0, stride, width, batch.end)
    ensures slots[i] + RowStart(0, stride, i) < |mem| && result < |mem|
    ensures var offset := slots[i] + RowStart(0, stride, i);
            IsFirstBestOffset(d, mem, 0, stride, width, batch.end,
                              if Better(d, mem[offset], mem[result]) then offset else result)
  {
    hide IsFirstBestPixel, Covers;
    CoversRows(|mem|, 0, stride, width, height, batch.end);
    var rows := batch.end - i;
    var row': nat, column': nat :| IsFirstBestPixel(d, mem, RowStart(0, stride, i), stride, width, rows, row', column')
                                   && slots[i] == PixelAt(0, stride, row', column');
    RowStartShift(0, stride, i, row');
    assert slots[i] + RowStart(0, stride, i) == PixelAt(0, stride, i + row', column');
    hide RowStart, PixelAt, SlotHolds;
    if i == 0 {
      FirstSlot(d, mem, stride, width, batch.end, row', column');
    } else {
      var row: nat, column: nat :| IsFirstBestPixel(d, mem, 0, stride, width, i, row, column)
                                   && result == PixelAt(0, stride, row, column);
      StripeBelow(d, mem, stride, width, i, batch.end, row, column, row', column');
    }
  }

  // The very first slot is compared with the very first pixel, which it can only replace by something better.
  lemma FirstSlot(d: Direction, mem: seq<Byte>, stride: nat, width: nat, height: nat, row: nat, column: nat)
    requires Covers(|mem|, 0, stride, width, height)
    requires IsFirstBestPixel(d, mem, 0, stride, width, height, row, column)
    ensures RowStart(0, stride, 0) == 0 < |mem| && PixelAt(0, stride, row, column) < |mem|
    ensures !Better(d, mem[PixelAt(0, stride, row, column)], mem[0]) ==> PixelAt(0, stride, row, column) == 0
    ensures IsFirstBestOffset(d, mem, 0, stride, width, height, PixelAt(0, stride, row, column))
  {
    assert PixelAt(0, stride, 0, 0) == 0;
    assert Withstands(d, mem, PixelAt(0, stride, row, column), PixelAt(0, stride, 0, 0), IsEarlier(0, 0, row, column));
  }

  // reduce_offset, on a missing source or past the end of the memory too: the result is None if it reads there. The
  // batches are known to the proof only.
  method ReduceOffset(d: Direction, mem: array?<Byte>, stride: nat, slots: array<nat>, count: nat,
                      ghost width: nat, ghost batches: seq<Range>, ghost searched: bool)
    returns (result: Option<nat>)
    requires count <= slots.Length
    requires searched ==>
               && mem != null && Covers(mem.Length, 0, stride, width, count) && width > 0 && count > 0
               && IsPartition(batches, count) && SlotsHold(d, mem[..], stride, width, count, slots[..], batches)
    ensures result.Some? <==> count == 0 || (mem != null && SlotsInBounds(mem.Length, stride, slots[..], count))
    ensures searched ==> result.Some? && IsFirstBestOffset(d, mem[..], 0, stride, width, count, result.value)
  {
    hide IsPartition, SlotsHold, IsFirstBestOffset, RowStart;
    var best := 0;
    ghost var top := 0;
    for i := 0 to count
      invariant i > 0 ==> mem != null && best < mem.Length && SlotsInBounds(mem.Length, stride, slots[..], i)
      invariant i == 0 ==> best == 0
      invariant searched ==> Reduced(d, mem[..], stride, width, count, batches, i, top, best)
    {
      if searched {
        top := ReduceStep(d, mem[..], stride, width, count, slots[..], batches, i, top, best);
      }
      var offset := slots[i] + RowStart(0, stride, i);
      if mem == null || offset >= mem.Length {
        return None;
      }
      if Better(d, mem[offset], mem[best]) {
        best := offset;
      }
    }
    result := Some(best);
  }

  // --- The whole search -------------------------------------------------------------------------

  // The call for these rows succeeds if there is a source.
  predicate IsSearchable(width: nat, batch: Range) {
    width != 0 && batch.begin < batch.end && ImageSizeAccepted(width, batch.end - batch.begin)
  }

  ghost predicate IsSearchStart(width: nat, batches: seq<Range>, n: nat, i: nat) {
    exists k :: 0 <= k < n && k < |batches| && IsSearchable(width, batches[k]) && batches[k].begin == i
  }

  // Of the first n batches, those that could be searched have left their results. No other slot has been touched,
  // whether calls failed or not.
  ghost predicate Searched(d: Direction, mem: seq<Byte>, stride: nat, width: nat, height: nat,
                           slots: seq<nat>, batches: seq<Range>, n: nat)
    requires Covers(|mem|, 0, stride, width, height)
  {
    && n <= |batches| && height <= |slots|
    && (forall k :: 0 <= k < n && IsSearchable(width, batches[k]) ==>
          SlotHolds(d, mem, stride, width, height, slots, batches[k]))
    && (forall i :: 0 <= i < |slots| && !IsSearchStart(width, batches, n, i) ==> slots[i] == 0)
  }

  lemma SearchOne(d: Direction, mem: seq<Byte>, stride: nat, width: nat, height: nat,
                  slots: seq<nat>, batches: seq<Range>, n: nat, offset: nat)
    requires Covers(|mem|, 0, stride, width, height) && n < |batches| && IsSplit(batches, height)
    requires Searched(d, mem, stride, width, height, slots, batches, n) && IsSearchable(width, batches[n])
    requires var b := batches[n];
             && Covers(|mem|, RowStart(0, stride, b.begin), stride, width, b.end - b.begin)
             && IsFirstBestOffset(d, mem, RowStart(0, stride, b.begin), stride, width, b.end - b.begin, offset)
    ensures batches[n].begin < |slots|
    ensures Searched(d, mem, stride, width, height, slots[batches[n].begin := offset], batches, n + 1)
  {
    hide IsFirstBestOffset, Covers, ImageSizeAccepted;
    var b, slots' := batches[n], slots[batches[n].begin := offset];
    forall k | 0 <= k < n + 1 && IsSearchable(width, batches[k])
      ensures SlotHolds(d, mem, stride, width, height, slots', batches[k])
    {
      if k < n {
        assert SlotHolds(d, mem, stride, width, height, slots, batches[k]);
        assert InRange(batches[k], batches[k].begin) && InRange(b, b.begin);
      }
    }
    forall i | 0 <= i < |slots'| && !IsSearchStart(width, batches, n + 1, i) ensures slots'[i] == 0 {
      assert i != b.begin && !IsSearchStart(width, batches, n, i);
    }
  }

  lemma SearchFailed(d: Direction, mem: seq<Byte>, stride: nat, width: nat, height: nat,
                     slots: seq<nat>, batches: seq<Range>, n: nat)
    requires Covers(|mem|, 0, stride, width, height) && n < |batches|
    requires Searched(d, mem, stride, width, height, slots, batches, n) && !IsSearchable(width, batches[n])
    ensures Searched(d, mem, stride, width, height, slots, batches, n + 1)
  {
    hide IsSearchable, SlotHolds, Covers;
    forall i | 0 <= i < |slots| && !IsSearchStart(width, batches, n + 1, i) ensures slots[i] == 0 {
      assert !IsSearchStart(width, batches, n, i);
    }
  }

  lemma SearchedAll(d: Direction, mem: seq<Byte>, stride: nat, width: nat, height: nat, slots: seq<nat>,
                    batches: seq<Range>)
    requires Covers(|mem|, 0, stride, width, height)
    requires Searched(d, mem, stride, width, height, slots, batches, |batches|)
    requires forall k :: 0 <= k < |batches| ==> IsSearchable(width, batches[k])
    ensures SlotsHold(d, mem, stride, width, height, slots, batches)
  {
    hide IsSearchable, SlotHolds, Covers;
    forall i | 0 <= i < height && !IsBatchStart(batches, i) ensures slots[i] == 0 {
      assert !IsSearchStart(width, batches, |batches|, i);
    }
  }

  // A slot that holds a result addresses a pixel.
  lemma SlotAddressesPixel(d: Direction, mem: seq<Byte>, stride: nat, width: nat, begin: nat, rows: nat, offset: nat)
    requires Covers(|mem|, RowStart(0, stride, begin), stride, width, rows)
    requires IsFirstBestOffset(d, mem, RowStart(0, stride, begin), stride, width, rows, offset)
    ensures offset + RowStart(0, stride, begin) < |mem|
  {
    var base := RowStart(0, stride, begin);
    var row: nat, column: nat :| IsFirstBestPixel(d, mem, base, stride, width, rows, row, column)
                                 && offset == PixelAt(0, stride, row, column);
    RowStartShift(0, stride, begin, row);
    PixelInBounds(|mem|, base, stride, width, rows, row, column);
  }

  // Whatever has been searched, the reduction stays inside the memory if and only if the memory covers one column.
  lemma WhenSlotsInBounds(d: Direction, mem: seq<Byte>, stride: nat, width: nat, height: nat, slots: seq<nat>,
                          batches: seq<Range>)
    requires Covers(|mem|, 0, stride, width, height) && IsSplit(batches, height)
    requires Searched(d, mem, stride, width, height, slots, batches, |batches|)
    ensures SlotsInBounds(|mem|, stride, slots, height) <==> Covers(|mem|, 0, stride, 1, height)
  {
    hide IsFirstBestOffset, ImageSizeAccepted;
    if Covers(|mem|, 0, stride, 1, height) {
      forall i | 0 <= i < height ensures slots[i] + RowStart(0, stride, i) < |mem| {
        RowStartsGrow(0, stride, i, height - 1);
        if IsSearchStart(width, batches, |batches|, i) {
          var k :| 0 <= k < |batches| && IsSearchable(width, batches[k]) && batches[k].begin == i;
          assert SlotHolds(d, mem, stride, width, height, slots, batches[k]);
          SlotAddressesPixel(d, mem, stride, width, i, batches[k].end - i, slots[i]);
        }
      }
    } else {
      assert width == 0 && height > 0;
      assert !IsSearchStart(width, batches, |batches|, height - 1);
      assert slots[height - 1] == 0;
    }
  }

  // What a direction's slots hold after n calls; without a source no call stores anything.
  ghost predicate SlotsAfter(d: Direction, mem: array?<Byte>, stride: nat, width: nat, height: nat,
                             slots: array<nat>, batches: seq<Range>, n: nat)
    reads mem, slots
  {
    && height <= slots.Length
    && (mem != null ==>
          && Covers(mem.Length, 0, stride, width, height)
          && Searched(d, mem[..], stride, width, height, slots[..], batches, n))
  }

  lemma NothingSearched(d: Direction, mem: seq<Byte>, stride: nat, width: nat, height: nat, slots: seq<nat>,
                        batches: seq<Range>)
    requires Covers(|mem|, 0, stride, width, height) && height <= |slots|
    requires forall i :: 0 <= i < |slots| ==> slots[i] == 0
    ensures Searched(d, mem, stride, width, height, slots, batches, 0)
  {
  }

  // The result of a call, if there is a source.
  lemma ResultOfPresent(stride: nat, width: nat, batch: Range)
    ensures StripeResult(true, true, stride, width, batch)
         == Some(if IsSearchable(width, batch) then Ok else OutOfRange)
  {
  }

  // The callback of one batch: min_max_loc on its rows, with the slots of its first row as destinations. The address of
  // the rows is computed from that of the source, whether or not there is one.
  method SearchStripe(mem: array?<Byte>, stride: nat, width: nat, height: nat,
                      minSlots: array?<nat>, maxSlots: array?<nat>, batches: seq<Range>, k: nat)
    returns (result: Option<Error>)
    requires mem != null ==> Covers(mem.Length, 0, stride, width, height)
    requires IsSplit(batches, height) && k < |batches|
    requires minSlots != null ==> SlotsAfter(Smallest, mem, stride, width, height, minSlots, batches, k)
    requires maxSlots != null ==> SlotsAfter(Largest, mem, stride, width, height, maxSlots, batches, k)
    requires minSlots != null ==> minSlots != maxSlots
    modifies minSlots, maxSlots
    ensures result == StripeResult(mem != null, true, stride, width, batches[k])
    ensures minSlots != null ==> SlotsAfter(Smallest, mem, stride, width, height, minSlots, batches, k + 1)
    ensures maxSlots != null ==> SlotsAfter(Largest, mem, stride, width, height, maxSlots, batches, k + 1)
  {
    hide IsFirstBestOffset, Searched, Covers, IsPartition, RowStart, ImageSizeAccepted;
    var b := batches[k];
    var start := RowStart(0, stride, b.begin);
    if mem == null && start != 0 {
      return StripeResult(false, true, stride, width, b);
    }
    if mem != null {
      StripeIsCovered(mem.Length, stride, width, height, b.begin, b.end);
    }
    var error, minOffset, maxOffset :=
      MinMaxLocate(mem, start, stride, width, b.end - b.begin, minSlots != null, maxSlots != null);
    if mem != null {
      ResultOfPresent(stride, width, b);
      if minSlots != null {
        StoreResult(Smallest, mem, stride, width, height, minSlots, batches, k, minOffset);
      }
      if maxSlots != null {
        StoreResult(Largest, mem, stride, width, height, maxSlots, batches, k, maxOffset);
      }
    }
    result := Some(error);
  }

  // Stores an offset, if there is one, through the destination pointer of the call.
  method StoreResult(d: Direction, mem: array<Byte>, stride: nat, width: nat, height: nat,
                     slots: array<nat>, batches: seq<Range>, k: nat, offset: Option<nat>)
    requires Covers(mem.Length, 0, stride, width, height) && IsSplit(batches, height) && k < |batches|
    requires SlotsAfter(d, mem, stride, width, height, slots, batches, k)
    requires offset.Some? <==> IsSearchable(width, batches[k])
    requires offset.Some? ==>
               var b := batches[k];
               && Covers(mem.Length, RowStart(0, stride, b.begin), stride, width, b.end - b.begin)
               && IsFirstBestOffset(d, mem[..], RowStart(0, stride, b.begin), stride, width, b.end - b.begin,
                                    offset.value)
    modifies slots
    ensures SlotsAfter(d, mem, stride, width, height, slots, batches, k + 1)
  {
    hide IsFirstBestOffset, Searched, Covers, IsPartition, RowStart, IsSearchable;
    ghost var was := slots[..];
    if offset.Some? {
      SearchOne(d, mem[..], stride, width, height, was, batches, k, offset.value);
      slots[batches[k].begin] := offset.value;
      assert slots[..] == was[batches[k].begin := offset.value];
    } else {
      SearchFailed(d, mem[..], stride, width, height, was, batches, k);
    }
  }

  // All callbacks, in the order in which the scheduler runs them; a failure is remembered.
  method SearchStripes(mem: array?<Byte>, stride: nat, width: nat, height: nat,
                       minSlots: array?<nat>, maxSlots: array?<nat>, batches: seq<Range>)
    returns (result: Option<Error>)
    requires mem != null ==> Covers(mem.Length, 0, stride, width, height)
    requires IsSplit(batches, height)
    requires minSlots != null ==> SlotsAfter(Smallest, mem, stride, width, height, minSlots, batches, 0)
    requires maxSlots != null ==> SlotsAfter(Largest, mem, stride, width, height, maxSlots, batches, 0)
    requires minSlots != null ==> minSlots != maxSlots
    modifies minSlots, maxSlots
    ensures result.Some? <==> StayInside(mem != null, true, stride, width, batches)
    ensures result.Some? ==> IsCallResult(mem != null, true, stride, width, batches, result.value)
    ensures result.Some? && minSlots != null ==>
              SlotsAfter(Smallest, mem, stride, width, height, minSlots, batches, |batches|)
    ensures result.Some? && maxSlots != null ==>
              SlotsAfter(Largest, mem, stride, width, height, maxSlots, batches, |batches|)
  {
    hide SlotsAfter, Covers, IsSplit, StripeResult;
    var error := Ok;
    for k := 0 to |batches|
      invariant StayInside(mem != null, true, stride, width, batches[..k])
      invariant IsCallResult(mem != null, true, stride, width, batches[..k], error)
      invariant minSlots != null ==> SlotsAfter(Smallest, mem, stride, width, height, minSlots, batches, k)
      invariant maxSlots != null ==> SlotsAfter(Largest, mem, stride, width, height, maxSlots, batches, k)
    {
      var stripe := SearchStripe(mem, stride, width, height, minSlots, maxSlots, batches, k);
      if stripe.None? {
        return None;
      }
      OneMoreCall(mem != null, true, stride, width, batches, k, error);
      if stripe.value != Ok {
        error := stripe.value;
      }
    }
    assert batches[..|batches|] == batches;
    result := Some(error);
  }

  /** What a call does: it returns, or reads where there is no image, after which nothing is known. */
  datatype Outcome = Returned(error: Error, minOffset: Option<nat>, maxOffset: Option<nat>) | ReadsOutside

  // The memory at the source, if there is a source.
  function SizeOf(mem: array?<Byte>): Option<nat> {
    if mem == null then None else Some(mem.Length)
  }

  // When nothing outside the memory is read: the calls for the stripes stay inside, and if an output is wanted, the
  // reduction finds one column of pixels.
  ghost predicate IsInside(size: Option<nat>, stride: nat, width: nat, height: nat, wanted: bool, batches: seq<Range>) {
    && StayInside(size.Some?, true, stride, width, batches)
    && (wanted ==> height == 0 || (size.Some? && Covers(size.value, 0, stride, 1, height)))
  }

  // With a source, that is so unless an output is wanted of an image without columns. Without one, there must be
  // nothing to reduce and no acceptable stripe at a distance from the missing source.
  lemma WhenIsInside(size: Option<nat>, stride: nat, width: nat, height: nat, wanted: bool, batches: seq<Range>)
    requires size.Some? ==> Covers(size.value, 0, stride, width, height)
    ensures IsInside(size, stride, width, height, wanted, batches)
       <==> if size.Some? then !wanted || width > 0 || height == 0 || Covers(size.value, 0, stride, 1, height)
            else (!wanted || height == 0)
                 && forall k :: 0 <= k < |batches| && RowStart(0, stride, batches[k].begin) != 0 ==>
                      !IsSearchable(width, batches[k])
  {
    WhenInside(size.Some?, true, stride, width, batches);
    forall k | 0 <= k < |batches|
      ensures StripeResult(true, true, stride, width, batches[k]) == Some(Ok) <==> IsSearchable(width, batches[k])
    {
      ResultOfPresent(stride, width, batches[k]);
    }
  }

  // One row without columns: the single call returns an error, and the reduction reads a pixel that is not there.
  lemma NoColumns(stride: nat)
    ensures Covers(0, 0, stride, 0, 1) && IsPartition([Range(0, 1)], TaskCount(1, 1))
    ensures ImageResult(true, true, 0, 1) == OutOfRange
    ensures !IsInside(Some(0), stride, 0, 1, true, BatchesOf([Range(0, 1)], 1, 1))
  {
    SingleRowsPartition(1);
    assert Singletons(1) == [Range(0, 1)];
  }

  // parallel_min_max_loc: for every schedule the result is that of a single search.
  method Locate(mem: array?<Byte>, stride: nat, width: nat, height: nat, wantMin: bool, wantMax: bool,
                schedule: seq<Range>, memoryLeft: bool)
    returns (outcome: Outcome)
    requires mem != null ==> Covers(mem.Length, 0, stride, width, height)
    requires IsPartition(schedule, TaskCount(height, 1))
    ensures (wantMin || wantMax) && !memoryLeft ==> outcome == Returned(Allocation, None, None)
    ensures !((wantMin || wantMax) && !memoryLeft) ==>
              (outcome.Returned?
               <==> IsInside(SizeOf(mem), stride, width, height, wantMin || wantMax, BatchesOf(schedule, height, 1)))
    ensures !((wantMin || wantMax) && !memoryLeft) && outcome.Returned? ==>
              && IsCallResult(mem != null, true, stride, width, BatchesOf(schedule, height, 1), outcome.error)
              && (outcome.minOffset.Some? <==> wantMin) && (outcome.maxOffset.Some? <==> wantMax)
    ensures !((wantMin || wantMax) && !memoryLeft) && outcome.Returned? && mem != null ==>
              ImageSizeAccepted(width, height) ==> outcome.error == ImageResult(true, true, width, height)
    ensures outcome.Returned? && outcome.error == Ok ==>
              && mem != null && Covers(mem.Length, 0, stride, width, height)
              && (wantMin ==>
                    IsFirstBestOffset(Smallest, mem[..], 0, stride, width, height, outcome.minOffset.value))
              && (wantMax ==>
                    IsFirstBestOffset(Largest, mem[..], 0, stride, width, height, outcome.maxOffset.value))
    ensures outcome.Returned? && outcome.error == Ok && wantMin ==>
              exists row: nat, column: nat |
                row < height && column < width && outcome.minOffset.value == PixelAt(0, stride, row, column) ::
                  forall y: nat, x: nat | y < height && x < width ::
                    var best, here := PixelAt(0, stride, row, column), PixelAt(0, stride, y, x);
                    && best < mem.Length && here < mem.Length && mem[best] <= mem[here]
                    && (y < row || (y == row && x < column) ==> mem[best] < mem[here])
    ensures outcome.Returned? && outcome.error == Ok && wantMax ==>
              exists row: nat, column: nat |
                row < height && column < width && outcome.maxOffset.value == PixelAt(0, stride, row, column) ::
                  forall y: nat, x: nat | y < height && x < width ::
                    var best, here := PixelAt(0, stride, row, column), PixelAt(0, stride, y, x);
                    && best < mem.Length && here < mem.Length && mem[here] <= mem[best]
                    && (y < row || (y == row && x < column) ==> mem[here] < mem[best])
  {
    hide IsPartition, IsFirstBestOffset, Searched, ImageSizeAccepted, TaskCount, SlotsHold, BatchesOf, Covers,
         AllSucceed, StayInside;
    if (wantMin || wantMax) && !memoryLeft {
      return Returned(Allocation, None, None);
    }
    var minSlots: array?<nat>, maxSlots: array?<nat> := null, null;
    var batches := BatchesOf(schedule, height, 1);
    BatchesSplit(schedule, height, 1);
    if wantMin {
      minSlots := NewSlots(Smallest, mem, stride, width, height, batches);
    }
    if wantMax {
      maxSlots := NewSlots(Largest, mem, stride, width, height, batches);
    }
    var result := SearchStripes(mem, stride, width, height, minSlots, maxSlots, batches);
    if result.None? {
      return ReadsOutside;
    }
    ghost var ok := result.value == Ok;
    WhenSuccessful(mem != null, stride, width, schedule, height, ok);
    if mem != null && ImageSizeAccepted(width, height) {
      SameResult(true, stride, width, schedule, height, result.value);
    }
    var minOffset, maxOffset := None, None;
    if wantMin {
      minOffset := ReduceSlots(Smallest, mem, stride, width, height, minSlots, batches, ok);
      if minOffset.None? {
        return ReadsOutside;
      }
    }
    if wantMax {
      maxOffset := ReduceSlots(Largest, mem, stride, width, height, maxSlots, batches, ok);
      if maxOffset.None? {
        return ReadsOutside;
      }
    }
    outcome := Returned(result.value, minOffset, maxOffset);
    if ok && wantMin {
      OffsetOfSmallest(mem[..], 0, stride, width, height, minOffset.value);
    }
    if ok && wantMax {
      OffsetOfLargest(mem[..], 0, stride, width, height, maxOffset.value);
    }
  }

  method NewSlots(d: Direction, mem: array?<Byte>, stride: nat, width: nat, height: nat, batches: seq<Range>)
    returns (slots: array<nat>)
    requires mem != null ==> Covers(mem.Length, 0, stride, width, height)
    ensures fresh(slots) && SlotsAfter(d, mem, stride, width, height, slots, batches, 0)
  {
    slots := new nat[Max(1, height)](_ => 0);
    if mem != null {
      NothingSearched(d, mem[..], stride, width, height, slots[..], batches);
    }
  }

  // Success needs a source and pixels, and every batch has been searched.
  lemma WhenSuccessful(present: bool, stride: nat, width: nat, schedule: seq<Range>, height: nat, ok: bool)
    requires IsPartition(schedule, TaskCount(height, 1))
    requires ok ==> AllSucceed(present, true, stride, width, BatchesOf(schedule, height, 1))
    ensures ok ==> present && width > 0 && height > 0
    ensures ok ==> forall r :: r in BatchesOf(schedule, height, 1) ==> IsSearchable(width, r)
  {
    hide TaskCount, BatchesOf, ImageSizeAccepted;
    if ok {
      var batches := BatchesOf(schedule, height, 1);
      WhenSingleCallSucceeds(true, stride, width, schedule, height);
      NeverSucceedsWithoutSource(true, stride, width, schedule, height);
      forall k | 0 <= k < |batches| ensures IsSearchable(width, batches[k]) {
        ResultOfPresent(stride, width, batches[k]);
      }
    }
  }

  method ReduceSlots(d: Direction, mem: array?<Byte>, stride: nat, width: nat, height: nat, slots: array<nat>,
                     batches: seq<Range>, ghost ok: bool)
    returns (offset: Option<nat>)
    requires SlotsAfter(d, mem, stride, width, height, slots, batches, |batches|) && IsSplit(batches, height)
    requires ok ==> mem != null && width > 0 && height > 0 && forall r :: r in batches ==> IsSearchable(width, r)
    ensures offset.Some? <==> height == 0 || (mem != null && Covers(mem.Length, 0, stride, 1, height))
    ensures ok ==> mem != null && Covers(mem.Length, 0, stride, width, height)
    ensures ok ==> offset.Some? && IsFirstBestOffset(d, mem[..], 0, stride, width, height, offset.value)
  {
    hide IsPartition, IsFirstBestOffset, Searched, SlotsHold, SlotsInBounds, IsSearchable;
    if mem != null {
      WhenSlotsInBounds(d, mem[..], stride, width, height, slots[..], batches);
    }
    if ok {
      SearchedAll(d, mem[..], stride, width, height, slots[..], batches);
    }
    offset := ReduceOffset(d, mem, stride, slots, height, width, batches, ok);
  }

  // --- Row and column ---------------------------------------------------------------------------

  // offset_to_coords in the OpenCV adapter, for elements of one byte.
  function OffsetToCoords(offset: nat, stride: nat): (nat, nat) {
    if stride != 0 then (offset / stride, offset % stride) else (0, offset)
  }

  // It recovers the pixel exactly if the column lies within the stride, or a zero stride comes with the first row.
  lemma CoordsAreRecovered(row: nat, column: nat, stride: nat)
    ensures OffsetToCoords(PixelAt(0, stride, row, column), stride) == (row, column)
       <==> if stride == 0 then row == 0 else column < stride
  {
    RowStartIs(0, stride, row);
    if column < stride {
      DivModUnique(row, column, stride);
    }
  }

  // In a single row with a short stride, a column beyond the stride is taken for one of another row.
  lemma ColumnBeyondStride()
    ensures OffsetToCoords(PixelAt(0, 2, 0, 3), 2) == (1, 1)
  {
  }
}
