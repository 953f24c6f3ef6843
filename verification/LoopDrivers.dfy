/** The row loops: unrolled vectors, rewinding instead of a tail, and what they make of element-wise operations. */
module LoopDrivers {
  import opened Basics
  import opened Arithmetic

  // --- Calls and what they do -------------------------------------------------------------------

  /** One callback: a vector call or a call for remaining elements, on a window of the row. */
  datatype Call = Vectors(at: int, length: nat) | Remaining(at: int, length: nat)

  predicate InWindow(c: Call, i: int) {
    c.at <= i < c.at + c.length
  }

  // How many calls process element i.
  function Times(calls: seq<Call>, i: int): nat {
    if calls == [] then 0
    else Times(calls[..|calls| - 1], i) + if InWindow(calls[|calls| - 1], i) then 1 else 0
  }

  predicate AreWithin(calls: seq<Call>, length: nat) {
    forall k :: 0 <= k < |calls| ==> 0 <= calls[k].at && calls[k].at + calls[k].length <= length
  }

  predicate HaveNoRemaining(calls: seq<Call>) {
    forall k :: 0 <= k < |calls| ==> calls[k].Vectors?
  }

  // Vector calls take one or two full vectors.
  predicate AreFull(calls: seq<Call>, lanes: nat) {
    forall k :: 0 <= k < |calls| && calls[k].Vectors? ==> calls[k].length == lanes || calls[k].length == 2 * lanes
  }

  // The later calls are vector calls of the given length.
  predicate AreExtended(earlier: seq<Call>, calls: seq<Call>, length: nat) {
    earlier <= calls && forall k :: |earlier| <= k < |calls| ==> calls[k].Vectors? && calls[k].length == length
  }

  lemma TimesAfter(calls: seq<Call>, c: Call, i: int)
    ensures Times(calls + [c], i) == Times(calls, i) + if InWindow(c, i) then 1 else 0
  {
    assert (calls + [c])[..|calls|] == calls;
  }

  lemma {:induction false} TimesIsCardinality(calls: seq<Call>, i: int)
    ensures Times(calls, i) == |set k | 0 <= k < |calls| && calls[k].at <= i < calls[k].at + calls[k].length|
  {
    if calls != [] {
      var n := |calls| - 1;
      TimesIsCardinality(calls[..n], i);
      var all := set k | 0 <= k < |calls| && calls[k].at <= i < calls[k].at + calls[k].length;
      var front := set k | 0 <= k < n && calls[..n][k].at <= i < calls[..n][k].at + calls[..n][k].length;
      assert all == front + if InWindow(calls[n], i) then {n} else {};
    }
  }

  // The destination after element-wise calls that read from a separate source.
  function Mapped<T>(f: T -> T, src: seq<T>, dst: seq<T>, calls: seq<Call>): (r: seq<T>)
    requires |src| == |dst| && AreWithin(calls, |src|)
    ensures |r| == |dst|
  {
    if calls == [] then dst
    else
      var before := Mapped(f, src, dst, calls[..|calls| - 1]);
      seq(|dst|, i requires 0 <= i < |dst| => if InWindow(calls[|calls| - 1], i) then f(src[i]) else before[i])
  }

  // The buffer after element-wise calls in place.
  function MappedInPlace<T>(f: T -> T, buffer: seq<T>, calls: seq<Call>): (r: seq<T>)
    requires AreWithin(calls, |buffer|)
    ensures |r| == |buffer|
  {
    if calls == [] then buffer
    else
      var before := MappedInPlace(f, buffer, calls[..|calls| - 1]);
      seq(|buffer|, i requires 0 <= i < |buffer| => if InWindow(calls[|calls| - 1], i) then f(before[i]) else before[i])
  }

  function Iterate<T>(f: T -> T, n: nat, x: T): T {
    if n == 0 then x else f(Iterate(f, n - 1, x))
  }

  // Only elements in some window are written, with the image of the source.
  lemma {:induction false} MappedElement<T>(f: T -> T, src: seq<T>, dst: seq<T>, calls: seq<Call>, i: nat)
    requires |src| == |dst| && AreWithin(calls, |src|) && i < |src|
    ensures Mapped(f, src, dst, calls)[i] == if Times(calls, i) > 0 then f(src[i]) else dst[i]
  {
    if calls != [] {
      MappedElement(f, src, dst, calls[..|calls| - 1], i);
    }
  }

  // In place, the operation is applied as often as the element is processed.
  lemma {:induction false} MappedInPlaceElement<T>(f: T -> T, buffer: seq<T>, calls: seq<Call>, i: nat)
    requires AreWithin(calls, |buffer|) && i < |buffer|
    ensures MappedInPlace(f, buffer, calls)[i] == Iterate(f, Times(calls, i), buffer[i])
  {
    if calls != [] {
      MappedInPlaceElement(f, buffer, calls[..|calls| - 1], i);
    }
  }

  // --- LoopUnroll -------------------------------------------------------------------------------

  /** LoopUnroll, with the column that its callbacks advance and a log of the calls. */
  class LoopUnroll {
    var length: nat
    const step: nat
    const canAvoidTail: bool
    var column: int
    var calls: seq<Call>

    constructor (length: nat, step: nat)
      ensures this.length == length && this.step == step && canAvoidTail == (length >= step)
      ensures column == 0 && calls == []
    {
      this.length, this.step, canAvoidTail := length, step, length >= step;
      column, calls := 0, [];
    }

    // unroll_n_times: every call gets the next unrolled step, and what does not fill a step remains.
    method UnrollNTimes(unrollFactor: nat, wide: nat, ghost end: nat)
      requires wide == unrollFactor * step && wide > 0 && column >= 0
      requires column + length <= end && AreWithin(calls, end)
      modifies this
      ensures column + length == old(column + length) && column >= old(column)
      ensures length == Rest(old(length), wide) && length < wide
      ensures forall i :: Times(calls, i) == old(Times(calls, i)) + if old(column) <= i < column then 1 else 0
      ensures AreWithin(calls, end)
      ensures old(HaveNoRemaining(calls)) ==> HaveNoRemaining(calls)
      ensures old(AreFull(calls, step)) && (wide == step || wide == 2 * step) ==> AreFull(calls, step)
    {
      hide Times, Rest;
      var maxIndex, start := length / wide, column;
      ghost var calls0 := calls;
      ghost var steps := RestBelow(length, wide);
      var index := 0;
      while index < maxIndex
        invariant 0 <= index <= maxIndex && column == start + Steps(index, wide) && length == old(length)
        invariant forall i :: Times(calls, i) == Times(calls0, i) + if start <= i < column then 1 else 0
        invariant AreWithin(calls, end)
        invariant HaveNoRemaining(calls0) ==> HaveNoRemaining(calls)
        invariant AreFull(calls0, step) && (wide == step || wide == 2 * step) ==> AreFull(calls, step)
      {
        StepsGrow(index + 1, maxIndex, wide);
        NextCall(calls0, calls, Vectors(column, wide), start, column, column + wide);
        calls := calls + [Vectors(column, wide)];
        column := column + wide;
        index := index + 1;
      }
      assert wide * index == Steps(index, wide) by { StepsAre(index, wide); }
      length := length - wide * index;
    }

    static lemma NextCall(calls0: seq<Call>, calls: seq<Call>, c: Call, start: int, column: int, column': int)
      requires start <= column <= column' && c.at == column && c.at + c.length == column'
      requires forall i :: Times(calls, i) == Times(calls0, i) + if start <= i < column then 1 else 0
      ensures forall i :: Times(calls + [c], i) == Times(calls0, i) + if start <= i < column' then 1 else 0
    {
      forall i ensures Times(calls + [c], i) == Times(calls0, i) + if start <= i < column' then 1 else 0 {
        TimesAfter(calls, c, i);
      }
    }

    // try_avoid_tail_loop: step back so that one more full vector ends with the row.
    method TryAvoidTailLoop() returns (rewound: bool)
      modifies this
      ensures calls == old(calls) && column + length == old(column + length)
      ensures rewound <==> canAvoidTail && old(length) != 0
      ensures length == if rewound then step else old(length)
    {
      if !canAvoidTail || length == 0 {
        return false;
      }
      column := column - (step - length);
      length := step;
      return true;
    }

    // remaining: one call for everything that is left.
    method RemainingCall()
      modifies this
      ensures length == 0
      ensures old(length) == 0 ==> calls == old(calls)
      ensures old(length) != 0 ==> calls == old(calls) + [Remaining(old(column), old(length))]
    {
      if length != 0 {
        calls := calls + [Remaining(column, length)];
        length := 0;
      }
    }
  }

  // --- RowBasedOperation ------------------------------------------------------------------------

  // Whether a row ends with a rewound vector.
  predicate Rewinds(length: nat, lanes: nat, unrolledOnce: bool, avoidTail: bool)
    requires lanes > 0
  {
    unrolledOnce && avoidTail && length >= lanes && Rest(length, lanes) != 0
  }

  // How often process_row processes an element: once, or twice where the rewound vector overlaps the one before.
  function ExpectedTimes(i: int, length: nat, lanes: nat, unrolledOnce: bool, avoidTail: bool): nat
    requires lanes > 0
  {
    if !(0 <= i < length) then 0
    else if Rewinds(length, lanes, unrolledOnce, avoidTail) && length - lanes <= i < length - Rest(length, lanes)
        then 2 else 1
  }

  lemma ExpectedTimesAre(i: int, length: nat, lanes: nat, unrolledOnce: bool, avoidTail: bool)
    requires lanes > 0
    ensures ExpectedTimes(i, length, lanes, unrolledOnce, avoidTail)
         == if i < 0 || i >= length then 0
            else if unrolledOnce && avoidTail && lanes <= length && length % lanes != 0
                    && length - lanes <= i < length - length % lanes then 2
            else 1
  {
  }

  // process_row for any combination of tags. No window leaves the row, every element is processed, and rows with at
  // least one full vector need no remaining call if the tail is avoided.
  method ProcessRow(length: nat, lanes: nat, unrolledTwice: bool, unrolledOnce: bool, avoidTail: bool)
    returns (calls: seq<Call>)
    requires lanes > 0
    ensures forall k :: 0 <= k < |calls| ==>
              && 0 <= calls[k].at && calls[k].at + calls[k].length <= length
              && (calls[k].Vectors? ==> calls[k].length == lanes || calls[k].length == 2 * lanes)
    ensures forall i :: Times(calls, i) == ExpectedTimes(i, length, lanes, unrolledOnce, avoidTail)
    ensures unrolledOnce && avoidTail && length >= lanes ==> forall k :: 0 <= k < |calls| ==> calls[k].Vectors?
  {
    hide Times, Rest;
    var loop := new LoopUnroll(length, lanes);
    assert forall i :: Times(loop.calls, i) == 0 by { NoCalls(); }
    if unrolledTwice {
      loop.UnrollNTimes(2, 2 * lanes, length);
    }
    if unrolledOnce {
      loop.UnrollNTimes(1, lanes, length);
      RestOfRest(length, lanes);
      if avoidTail {
        Rewind(loop, length);
      }
    }
    CallForRest(loop.calls, Remaining(loop.column, loop.length), length);
    loop.RemainingCall();
    calls := loop.calls;
  }

  // The jump back: one more vector, after which nothing remains and the loop is left.
  method Rewind(loop: LoopUnroll, ghost length: nat)
    requires loop.step > 0 && loop.column >= 0 && loop.column + loop.length == length && loop.length < loop.step
    requires loop.canAvoidTail == (length >= loop.step) && AreWithin(loop.calls, length)
    modifies loop
    ensures loop.column >= 0 && loop.column + loop.length == length && AreWithin(loop.calls, length)
    ensures old(HaveNoRemaining(loop.calls)) ==> HaveNoRemaining(loop.calls)
    ensures old(AreFull(loop.calls, loop.step)) ==> AreFull(loop.calls, loop.step)
    ensures loop.length == if loop.canAvoidTail then 0 else old(loop.length)
    ensures forall i :: Times(loop.calls, i) == old(Times(loop.calls, i))
              + if loop.canAvoidTail && old(loop.length) != 0 && length - loop.step <= i < length then 1 else 0
  {
    hide Times, Rest;
    var rewound := loop.TryAvoidTailLoop();
    if rewound {
      RestOfWhole(loop.step);
      loop.UnrollNTimes(1, loop.step, length);
      rewound := loop.TryAvoidTailLoop();
      assert !rewound;
    }
  }

  lemma NoCalls()
    ensures forall i :: Times([], i) == 0
  {
  }

  // A call for what remains completes the row.
  lemma CallForRest(calls: seq<Call>, rest: Call, length: nat)
    requires rest.at + rest.length == length
    ensures forall i :: Times(calls + [rest], i) == Times(calls, i) + if rest.at <= i < length then 1 else 0
  {
    forall i ensures Times(calls + [rest], i) == Times(calls, i) + if rest.at <= i < length then 1 else 0 {
      TimesAfter(calls, rest, i);
    }
  }

  // An element-wise operation between different buffers is done completely, whatever the tags.
  method ProcessElementwise<T>(f: T -> T, src: seq<T>, dst: seq<T>, lanes: nat,
                               unrolledTwice: bool, unrolledOnce: bool, avoidTail: bool)
    returns (result: seq<T>)
    requires lanes > 0 && |src| == |dst|
    ensures |result| == |src| && forall i :: 0 <= i < |src| ==> result[i] == f(src[i])
  {
    var calls := ProcessRow(|src|, lanes, unrolledTwice, unrolledOnce, avoidTail);
    forall i | 0 <= i < |src| ensures Mapped(f, src, dst, calls)[i] == f(src[i]) {
      MappedElement(f, src, dst, calls, i);
    }
    result := Mapped(f, src, dst, calls);
  }

  // In place, rewinding applies the operation twice to the overlap: the row is right exactly if applying it again
  // makes no difference there.
  method ProcessInPlace<T(==)>(f: T -> T, buffer: seq<T>, lanes: nat, unrolledTwice: bool, unrolledOnce: bool,
                               avoidTail: bool)
    returns (result: seq<T>)
    requires lanes > 0
    ensures |result| == |buffer|
    ensures (forall i :: 0 <= i < |buffer| ==> result[i] == f(buffer[i]))
       <==> (Rewinds(|buffer|, lanes, unrolledOnce, avoidTail) ==>
               forall i :: |buffer| - lanes <= i < |buffer| - Rest(|buffer|, lanes) ==> f(f(buffer[i])) == f(buffer[i]))
    ensures forall i :: 0 <= i < |buffer| ==>
              result[i] == Iterate(f, ExpectedTimes(i, |buffer|, lanes, unrolledOnce, avoidTail), buffer[i])
  {
    var calls := ProcessRow(|buffer|, lanes, unrolledTwice, unrolledOnce, avoidTail);
    result := MappedInPlace(f, buffer, calls);
    forall i | 0 <= i < |buffer|
      ensures result[i] == Iterate(f, ExpectedTimes(i, |buffer|, lanes, unrolledOnce, avoidTail), buffer[i])
      ensures result[i] == if ExpectedTimes(i, |buffer|, lanes, unrolledOnce, avoidTail) == 2
                           then f(f(buffer[i])) else f(buffer[i])
    {
      MappedInPlaceElement(f, buffer, calls, i);
      assert Iterate(f, 1, buffer[i]) == f(buffer[i]);
      assert Iterate(f, 2, buffer[i]) == f(Iterate(f, 1, buffer[i]));
    }
  }

  // Three elements in vectors of two: a row that rewinds increments the middle one twice.
  method RepeatedIncrement(unrolledTwice: bool) returns (result: seq<int>)
    ensures Rewinds(3, 2, true, true) && result == [1, 2, 1]
  {
    RestIs(3, 2, 1, 1);
    result := ProcessInPlace(x => x + 1, [0, 0, 0], 2, unrolledTwice, true, true);
    assert ExpectedTimes(0, 3, 2, true, true) == ExpectedTimes(2, 3, 2, true, true) == 1;
    assert ExpectedTimes(1, 3, 2, true, true) == 2;
    assert Iterate((x: int) => x + 1, 0, 0) == 0;
  }

  // --- LoopUnroll2 ------------------------------------------------------------------------------

  /** LoopUnroll2, which passes indices to its callbacks, with a log of the calls. */
  class LoopUnroll2 {
    const length: nat
    const step: nat
    var index: nat
    var calls: seq<Call>

    constructor (startIndex: nat, length: nat, step: nat)
      ensures this.length == length && this.step == step && index == Min(startIndex, length) && calls == []
    {
      this.length, this.step, index, calls := length, step, Min(startIndex, length), [];
    }

    // unroll_n_times without the built-in tail: full windows from the index on, up to what does not fill one.
    method UnrollNTimes(unrollFactor: nat)
      requires unrollFactor * step > 0 && index <= length
      modifies this
      ensures index == length - Rest(length - old(index), unrollFactor * step) && old(index) <= index <= length
      ensures forall i :: Times(calls, i) == old(Times(calls, i)) + if old(index) <= i < index then 1 else 0
      ensures AreExtended(old(calls), calls, unrollFactor * step)
      ensures old(AreWithin(calls, length)) ==> AreWithin(calls, length)
    {
      hide Times, Rest;
      var wide := unrollFactor * step;
      var maxIndex := index + ((length - index) / wide) * wide;
      ghost var steps := RestBelow(length - index, wide);
      StepsAre(steps, wide);
      Advance(wide, maxIndex, steps);
    }

    // The inner loop: full steps up to maxIndex.
    method Advance(wide: nat, maxIndex: nat, ghost steps: nat)
      requires wide > 0 && index <= maxIndex <= length && maxIndex == index + Steps(steps, wide)
      modifies this
      ensures index == maxIndex
      ensures forall i :: Times(calls, i) == old(Times(calls, i)) + if old(index) <= i < maxIndex then 1 else 0
      ensures AreExtended(old(calls), calls, wide)
      ensures old(AreWithin(calls, length)) ==> AreWithin(calls, length)
    {
      hide Times;
      ghost var calls0, start, left := calls, index, steps;
      while index < maxIndex
        invariant start <= index <= maxIndex && maxIndex == index + Steps(left, wide)
        invariant forall i :: Times(calls, i) == Times(calls0, i) + if start <= i < index then 1 else 0
        invariant AreExtended(calls0, calls, wide)
        invariant AreWithin(calls0, length) ==> AreWithin(calls, length)
      {
        LoopUnroll.NextCall(calls0, calls, Vectors(index, wide), start, index, index + wide);
        calls := calls + [Vectors(index, wide)];
        index, left := index + wide, left - 1;
      }
    }

    // unroll_once with the built-in tail: full vectors, then back to one vector before the end. Rows shorter than a
    // vector are left alone. The window of the rewound vector may begin before the index at which the loop was entered,
    // but not before 0.
    method UnrollOnceAvoidingTail()
      requires step > 0 && index <= length && AreWithin(calls, length)
      modifies this
      ensures AreExtended(old(calls), calls, step) && AreWithin(calls, length)
      ensures length < step ==> index == old(index) && calls == old(calls)
      ensures length >= step ==> index == length
      ensures length >= step ==>
                var rest := Rest(length - old(index), step);
                forall i :: Times(calls, i) == old(Times(calls, i))
                              + (if old(index) <= i < length - rest then 1 else 0)
                              + (if rest != 0 && length - step <= i < length then 1 else 0)
    {
      hide Times, Rest;
      var maxIndex := index + ((length - index) / step) * step;
      ghost var steps := RestBelow(length - index, step);
      ghost var calls0, rest, start, phase := calls, Rest(length - index, step), index, 0;
      StepsAre(steps, step);
      if length >= step {
        if index == length {
          RestOfWhole(step);
        }
        while index < length
          invariant AreExtended(calls0, calls, step) && AreWithin(calls, length) && 0 <= phase <= 2
          // Before the full vectors, before the rewound vector, and at the end.
          invariant phase < 2 ==> index <= maxIndex <= length && maxIndex == index + Steps(steps, step)
          invariant phase == 0 ==> index == start && maxIndex == length - rest && calls == calls0
          invariant phase == 1 ==> index == length - step && maxIndex == length && rest != 0
          invariant phase == 1 ==>
                      forall i :: Times(calls, i) == Times(calls0, i) + if start <= i < length - rest then 1 else 0
          invariant phase == 2 ==> index == length
          invariant phase == 2 ==>
                      forall i :: Times(calls, i) == Times(calls0, i)
                                    + (if start <= i < length - rest then 1 else 0)
                                    + (if rest != 0 && length - step <= i < length then 1 else 0)
          decreases 2 - phase
        {
          ghost var before := calls;
          Advance(step, maxIndex, steps);
          assert AreExtended(calls0, calls, step) by { ExtendedTwice(calls0, before, calls, step); }
          phase := if phase == 0 && index != length then 1 else 2;
          if index != length {
            index := length - step;
            maxIndex := length;
            steps := 1;
          }
        }
        RestOfWhole(step);
      }
    }

    static lemma ExtendedTwice(calls0: seq<Call>, calls1: seq<Call>, calls2: seq<Call>, wide: nat)
      requires AreExtended(calls0, calls1, wide) && AreExtended(calls1, calls2, wide)
      ensures AreExtended(calls0, calls2, wide)
    {
    }

    // tail: element by element.
    method Tail()
      requires index <= length
      modifies this
      ensures index == length && old(calls) <= calls && (old(index) == length ==> calls == old(calls))
      ensures forall i :: Times(calls, i) == old(Times(calls, i)) + if old(index) <= i < length then 1 else 0
      ensures old(AreWithin(calls, length)) ==> AreWithin(calls, length)
      ensures forall k :: |old(calls)| <= k < |calls| ==> calls[k].Remaining? && calls[k].length == 1
    {
      hide Times;
      ghost var calls0, start := calls, index;
      while index < length
        invariant start <= index <= length && calls0 <= calls && (start == length ==> calls == calls0)
        invariant forall i :: Times(calls, i) == Times(calls0, i) + if start <= i < index then 1 else 0
        invariant AreWithin(calls0, length) ==> AreWithin(calls, length)
        invariant forall k :: |calls0| <= k < |calls| ==> calls[k].Remaining? && calls[k].length == 1
      {
        LoopUnroll.NextCall(calls0, calls, Remaining(index, 1), start, index, index + 1);
        calls := calls + [Remaining(index, 1)];
        index := index + 1;
      }
    }
  }

  // The row loop of the separable filters: pairs of vectors, vectors with the built-in tail, and single elements. For
  // every length the windows stay in the row and are full, every element is processed once, or twice exactly where the
  // rewound vector overlaps, and rows of at least one vector need no single elements.
  method ProcessFilterRow(length: nat, lanes: nat) returns (calls: seq<Call>)
    requires lanes > 0
    ensures forall k :: 0 <= k < |calls| ==>
              && 0 <= calls[k].at && calls[k].at + calls[k].length <= length
              && (calls[k].Vectors? ==> calls[k].length == lanes || calls[k].length == 2 * lanes)
    ensures forall i :: Times(calls, i) == ExpectedTimes(i, length, lanes, true, true)
    ensures forall k :: 0 <= k < |calls| ==> (calls[k].Vectors? <==> length >= lanes)
  {
    hide Times, Rest;
    var loop := new LoopUnroll2(0, length, lanes);
    assert forall i :: Times(loop.calls, i) == 0 by { NoCalls(); }
    loop.UnrollNTimes(2);
    RestOfRest(length, lanes);
    ghost var steps := RestBelow(Rest(length, 2 * lanes), lanes);
    if length < lanes {
      RestIs(length, 2 * lanes, 0, length);
      assert loop.calls == [] by { NothingProcessed(loop.calls, length, 2 * lanes); }
    }
    loop.UnrollOnceAvoidingTail();
    loop.Tail();
    calls := loop.calls;
  }

  // Calls that process nothing and have a length are no calls.
  lemma NothingProcessed(calls: seq<Call>, length: nat, wide: nat)
    requires AreExtended([], calls, wide) && wide > 0 && forall i :: Times(calls, i) == 0
    ensures calls == []
  {
    if calls != [] {
      assert InWindow(calls[|calls| - 1], calls[|calls| - 1].at);
      assert Times(calls, calls[|calls| - 1].at) > 0;
    }
  }
}
