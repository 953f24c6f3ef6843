/** Minimum and maximum values: lane-wise accumulation with a scalar tail, the scalable variant with predicated
    tails, and the threaded reduction. For any integer element type and any number of lanes. */
module MinMaxOperation {
  import opened Basics
  import opened Arithmetic
  import opened Extremum
  import opened Images
  import opened Batches
  import opened RowStripes
  import opened LoopDrivers

  // What searches start from.
  function Identity(limits: Limits, d: Direction): int {
    if d.Smallest? then limits.highest else limits.lowest
  }

  function Pick(d: Direction, a: int, b: int): int {
    if Better(d, b, a) then b else a
  }

  // m is the extreme of the values and the identity.
  ghost predicate IsExtreme(d: Direction, identity: int, values: set<int>, m: int) {
    && (m == identity || m in values)
    && !Better(d, identity, m)
    && (forall x :: x in values ==> !Better(d, x, m))
  }

  lemma ExtremeIsUnique(d: Direction, identity: int, values: set<int>, m: int, m': int)
    requires IsExtreme(d, identity, values, m) && IsExtreme(d, identity, values, m')
    ensures m == m'
  {
    assert !Better(d, m, m') && !Better(d, m', m);
  }

  // The plain fold over all elements.
  function Fold(d: Direction, identity: int, s: seq<int>): int {
    if s == [] then identity else Pick(d, Fold(d, identity, s[..|s| - 1]), s[|s| - 1])
  }

  function Values(s: seq<int>): set<int> {
    set x | x in s
  }

  lemma {:induction false} FoldIsExtreme(d: Direction, identity: int, s: seq<int>)
    ensures IsExtreme(d, identity, Values(s), Fold(d, identity, s))
  {
    if s != [] {
      var front, last := s[..|s| - 1], s[|s| - 1];
      FoldIsExtreme(d, identity, front);
      assert s == front + [last];
      assert Values(s) == Values(front) + {last};
    }
  }

  // --- Accumulators -----------------------------------------------------------------------------

  // Together the accumulators hold the extreme of what has been consumed.
  ghost predicate Accumulates(d: Direction, identity: int, acc: seq<int>, consumed: set<int>) {
    && (forall l :: 0 <= l < |acc| ==> (acc[l] == identity || acc[l] in consumed) && !Better(d, identity, acc[l]))
    && (forall x :: x in consumed ==> IsCoveredBy(d, acc, x))
  }

  ghost predicate IsCoveredBy(d: Direction, acc: seq<int>, x: int) {
    exists l :: 0 <= l < |acc| && !Better(d, x, acc[l])
  }

  // vminq and vmaxq, or their merging forms: lanes without predicate keep their value.
  function Accumulate(d: Direction, acc: seq<int>, active: seq<bool>, src: seq<int>): (r: seq<int>)
    requires |acc| == |active| == |src|
    ensures |r| == |acc|
  {
    seq(|acc|, l requires 0 <= l < |acc| => if active[l] then Pick(d, acc[l], src[l]) else acc[l])
  }

  // The elements of the active lanes.
  function ActiveValues(active: seq<bool>, src: seq<int>): set<int>
    requires |active| == |src|
  {
    set l | 0 <= l < |src| && active[l] :: src[l]
  }

  lemma AccumulateStep(d: Direction, identity: int, acc: seq<int>, active: seq<bool>, src: seq<int>, consumed: set<int>)
    requires |acc| == |active| == |src| && Accumulates(d, identity, acc, consumed)
    ensures Accumulates(d, identity, Accumulate(d, acc, active, src), consumed + ActiveValues(active, src))
  {
    var acc' := Accumulate(d, acc, active, src);
    forall x | x in consumed + ActiveValues(active, src) ensures IsCoveredBy(d, acc', x) {
      if x in consumed {
        assert IsCoveredBy(d, acc, x);
        var l :| 0 <= l < |acc| && !Better(d, x, acc[l]);
        assert !Better(d, x, acc'[l]);
      } else {
        var l :| 0 <= l < |src| && active[l] && src[l] == x;
        assert !Better(d, x, acc'[l]);
      }
    }
  }

  // vminvq and vmaxvq: across the lanes.
  function Across(d: Direction, acc: seq<int>): int
    requires acc != []
  {
    if |acc| == 1 then acc[0] else Pick(d, Across(d, acc[..|acc| - 1]), acc[|acc| - 1])
  }

  lemma {:induction false} AcrossIsBest(d: Direction, acc: seq<int>)
    requires acc != []
    ensures Across(d, acc) in acc && forall l :: 0 <= l < |acc| ==> !Better(d, acc[l], Across(d, acc))
  {
    if |acc| > 1 {
      AcrossIsBest(d, acc[..|acc| - 1]);
      assert forall l :: 0 <= l < |acc| - 1 ==> acc[l] == acc[..|acc| - 1][l];
    }
  }

  lemma AcrossIsExtreme(d: Direction, identity: int, acc: seq<int>, consumed: set<int>)
    requires acc != [] && Accumulates(d, identity, acc, consumed)
    ensures IsExtreme(d, identity, consumed, Across(d, acc))
  {
    AcrossIsBest(d, acc);
    var l :| 0 <= l < |acc| && acc[l] == Across(d, acc);
    forall x | x in consumed ensures !Better(d, x, Across(d, acc)) {
      assert IsCoveredBy(d, acc, x);
      var k :| 0 <= k < |acc| && !Better(d, x, acc[k]);
    }
  }

  // The extreme of two collections is the better of their extremes.
  lemma ExtremeOfUnion(d: Direction, identity: int, a: set<int>, b: set<int>, m: int, n: int)
    requires IsExtreme(d, identity, a, m) && IsExtreme(d, identity, b, n)
    ensures IsExtreme(d, identity, a + b, Pick(d, m, n))
  {
  }

  // --- The Neon and the scalable operation ------------------------------------------------------

  /** Both variants: the scalable one has no scalar accumulators, and passes predicates instead. */
  class MinMax {
    const limits: Limits
    const lanes: nat
    var vmin: seq<int>
    var vmax: seq<int>
    var min: int
    var max: int
    ghost var byVector: set<int>
    ghost var byScalar: set<int>

    ghost predicate Valid()
      reads this
    {
      && lanes > 0 && |vmin| == |vmax| == lanes
      && Accumulates(Smallest, limits.highest, vmin, byVector) && IsExtreme(Smallest, limits.highest, byScalar, min)
      && Accumulates(Largest, limits.lowest, vmax, byVector) && IsExtreme(Largest, limits.lowest, byScalar, max)
    }

    // The values of all elements consumed so far.
    ghost function Consumed(): set<int>
      reads this
    {
      byVector + byScalar
    }

    constructor (limits: Limits, lanes: nat)
      requires lanes > 0
      ensures Valid() && this.limits == limits && this.lanes == lanes && Consumed() == {}
    {
      this.limits, this.lanes := limits, lanes;
      vmin, vmax := seq(lanes, _ => limits.highest), seq(lanes, _ => limits.lowest);
      min, max := limits.highest, limits.lowest;
      byVector, byScalar := {}, {};
    }

    // vector_path under a predicate; the Neon form has all lanes active.
    method VectorPath(active: seq<bool>, src: seq<int>)
      requires Valid() && |active| == |src| == lanes
      modifies this
      ensures Valid() && Consumed() == old(Consumed()) + ActiveValues(active, src)
    {
      hide Accumulates;
      AccumulateStep(Smallest, limits.highest, vmin, active, src, byVector);
      AccumulateStep(Largest, limits.lowest, vmax, active, src, byVector);
      vmin, vmax := Accumulate(Smallest, vmin, active, src), Accumulate(Largest, vmax, active, src);
      byVector := byVector + ActiveValues(active, src);
    }

    method ScalarPath(x: int)
      requires Valid() && limits.lowest <= x <= limits.highest
      modifies this
      ensures Valid() && Consumed() == old(Consumed()) + {x}
    {
      hide Accumulates;
      ExtremeOfUnion(Smallest, limits.highest, byScalar, {x}, min, x);
      ExtremeOfUnion(Largest, limits.lowest, byScalar, {x}, max, x);
      min, max := Pick(Smallest, min, x), Pick(Largest, max, x);
      byScalar := byScalar + {x};
    }

    method GetMin() returns (m: int)
      requires Valid()
      ensures IsExtreme(Smallest, limits.highest, Consumed(), m)
      ensures (m == limits.highest || m in Consumed()) && m <= limits.highest && forall x :: x in Consumed() ==> m <= x
    {
      AcrossIsExtreme(Smallest, limits.highest, vmin, byVector);
      ExtremeOfUnion(Smallest, limits.highest, byVector, byScalar, Across(Smallest, vmin), min);
      m := Pick(Smallest, Across(Smallest, vmin), min);
    }

    method GetMax() returns (m: int)
      requires Valid()
      ensures IsExtreme(Largest, limits.lowest, Consumed(), m)
      ensures (m == limits.lowest || m in Consumed()) && limits.lowest <= m && forall x :: x in Consumed() ==> x <= m
    {
      AcrossIsExtreme(Largest, limits.lowest, vmax, byVector);
      ExtremeOfUnion(Largest, limits.lowest, byVector, byScalar, Across(Largest, vmax), max);
      m := Pick(Largest, Across(Largest, vmax), max);
    }
  }

  // --- Rows -------------------------------------------------------------------------------------

  function AllActive(lanes: nat): seq<bool> {
    seq(lanes, _ => true)
  }

  // svwhilelt(index, length)
  function WhileLess(index: nat, length: nat, lanes: nat): seq<bool> {
    seq(lanes, l requires 0 <= l < lanes => index + l < length)
  }

  // A predicated load: inactive lanes read as zero.
  function LoadActive(row: seq<int>, at: nat, active: seq<bool>): (src: seq<int>)
    requires forall l :: 0 <= l < |active| && active[l] ==> at + l < |row|
    ensures |src| == |active|
  {
    seq(|active|, l requires 0 <= l < |active| => if active[l] then row[at + l] else 0)
  }

  lemma LoadedValues(row: seq<int>, at: nat, active: seq<bool>, n: nat)
    requires forall l :: 0 <= l < |active| ==> (active[l] <==> l < n)
    requires at + n <= |row| && n <= |active|
    ensures ActiveValues(active, LoadActive(row, at, active)) == Values(row[at..at + n])
  {
    var src, part := LoadActive(row, at, active), row[at..at + n];
    assert forall l :: 0 <= l < n ==> src[l] == part[l];
  }

  lemma ValuesOfConcat(a: seq<int>, b: seq<int>)
    ensures Values(a + b) == Values(a) + Values(b)
  {
  }

  // Two vectors or one.
  method VectorCall(op: MinMax, row: seq<int>, at: nat, length: nat)
    requires op.Valid() && (length == op.lanes || length == 2 * op.lanes) && at + length <= |row|
    modifies op
    ensures op.Valid() && op.Consumed() == old(op.Consumed()) + Values(row[at..at + length])
  {
    hide ActiveValues, Accumulates, IsExtreme, Values;
    var active := AllActive(op.lanes);
    LoadedValues(row, at, active, op.lanes);
    op.VectorPath(active, LoadActive(row, at, active));
    if length == 2 * op.lanes {
      LoadedValues(row, at + op.lanes, active, op.lanes);
      ValuesOfConcat(row[at..at + op.lanes], row[at + op.lanes..at + length]);
      assert row[at..at + op.lanes] + row[at + op.lanes..at + length] == row[at..at + length];
      op.VectorPath(active, LoadActive(row, at + op.lanes, active));
    }
  }

  // The Neon remaining path: element by element.
  method ScalarTail(op: MinMax, row: seq<int>, at: nat, length: nat)
    requires op.Valid() && at + length <= |row| && op.limits.Contains(row)
    modifies op
    ensures op.Valid() && op.Consumed() == old(op.Consumed()) + Values(row[at..at + length])
  {
    hide Accumulates, IsExtreme;
    for index := 0 to length
      invariant op.Valid() && op.Consumed() == old(op.Consumed()) + Values(row[at..at + index])
    {
      assert row[at + index] in row;
      op.ScalarPath(row[at + index]);
      assert row[at..at + index + 1] == row[at..at + index] + [row[at + index]];
      ValuesOfConcat(row[at..at + index], [row[at + index]]);
      assert Values([row[at + index]]) == {row[at + index]};
    }
  }

  // The scalable remaining path: vectors under a predicate, until no lane is active.
  method PredicatedTail(op: MinMax, row: seq<int>, at: nat, length: nat)
    requires op.Valid() && at + length <= |row|
    modifies op
    ensures op.Valid() && op.Consumed() == old(op.Consumed()) + Values(row[at..at + length])
  {
    hide ActiveValues, Accumulates, IsExtreme, Values;
    var index := 0;
    var active := WhileLess(index, length, op.lanes);
    ghost var done, was := 0, op.Consumed();
    assert row[at..at] == [] && Values([]) == {} by { NoValues(); }
    while active[0]
      invariant op.Valid() && active == WhileLess(index, length, op.lanes) && done == Min(index, length)
      invariant op.Consumed() == was + Values(row[at..at + done])
      decreases length - index
    {
      var done' := Min(index + op.lanes, length);
      LoadedValues(row, at + index, active, done' - done);
      ValuesOfConcat(row[at..at + done], row[at + done..at + done']);
      assert row[at..at + done] + row[at + done..at + done'] == row[at..at + done'];
      op.VectorPath(active, LoadActive(row, at + index, active));
      index := index + op.lanes;
      active := WhileLess(index, length, op.lanes);
      done := done';
    }
  }

  lemma NoValues()
    ensures Values([]) == {}
  {
  }

  // One row, by the calls of the row driver; both variants are unrolled twice.
  method ProcessValues(op: MinMax, row: seq<int>, scalable: bool)
    requires op.Valid() && op.limits.Contains(row)
    modifies op
    ensures op.Valid() && op.Consumed() == old(op.Consumed()) + Values(row)
  {
    hide Accumulates, IsExtreme, Times, Values, CalledValues;
    var calls := ProcessRow(|row|, op.lanes, true, false, false);
    ghost var was := op.Consumed();
    NothingCalled(row);
    assert calls[..0] == [];
    for k := 0 to |calls|
      invariant op.Valid() && op.Consumed() == was + CalledValues(row, calls[..k])
    {
      CalledStep(row, calls, k);
      match calls[k] {
        case Vectors(at, length) => VectorCall(op, row, at, length);
        case Remaining(at, length) =>
          if scalable {
            PredicatedTail(op, row, at, length);
          } else {
            ScalarTail(op, row, at, length);
          }
      }
    }
    assert calls[..|calls|] == calls;
    EverythingCalled(row, calls);
  }

  // The values in the windows of the calls.
  ghost function CalledValues(row: seq<int>, calls: seq<Call>): set<int>
    requires AreWithin(calls, |row|)
  {
    set i | 0 <= i < |row| && IsCalled(calls, i) :: row[i]
  }

  ghost predicate IsCalled(calls: seq<Call>, i: int) {
    exists k :: 0 <= k < |calls| && InWindow(calls[k], i)
  }

  lemma NothingCalled(row: seq<int>)
    ensures CalledValues(row, []) == {}
  {
  }

  lemma CalledStep(row: seq<int>, calls: seq<Call>, k: nat)
    requires AreWithin(calls, |row|) && k < |calls|
    ensures CalledValues(row, calls[..k + 1])
         == CalledValues(row, calls[..k]) + Values(row[calls[k].at..calls[k].at + calls[k].length])
  {
    var c := calls[k];
    var part := row[c.at..c.at + c.length];
    forall i | 0 <= i < |row|
      ensures IsCalled(calls[..k + 1], i) <==> IsCalled(calls[..k], i) || InWindow(c, i)
    {
      assert calls[..k + 1][k] == c;
      assert forall j :: 0 <= j < k ==> calls[..k + 1][j] == calls[..k][j];
    }
    forall x | x in Values(part) ensures x in CalledValues(row, calls[..k + 1]) {
      var j :| 0 <= j < |part| && part[j] == x;
      assert row[c.at + j] == x && InWindow(c, c.at + j);
    }
    forall i | 0 <= i < |row| && InWindow(c, i) ensures row[i] in Values(part) {
      assert part[i - c.at] == row[i];
    }
  }

  lemma {:induction false} TimesMeansCalled(calls: seq<Call>, i: int)
    ensures Times(calls, i) > 0 <==> IsCalled(calls, i)
  {
    if calls != [] {
      var n := |calls| - 1;
      TimesMeansCalled(calls[..n], i);
      assert forall j :: 0 <= j < n ==> calls[..n][j] == calls[j];
    }
  }

  lemma EverythingCalled(row: seq<int>, calls: seq<Call>)
    requires AreWithin(calls, |row|) && forall i :: 0 <= i < |row| ==> Times(calls, i) > 0
    ensures CalledValues(row, calls) == Values(row)
  {
    forall i | 0 <= i < |row| ensures IsCalled(calls, i) {
      TimesMeansCalled(calls, i);
    }
  }

  // --- Images -----------------------------------------------------------------------------------

  // zip_rows with apply_operation_by_rows: elements of the given size in bytes, rows without gaps as one row.
  method ApplyByRows(op: MinMax, mem: array<int>, base: nat, stride: nat, size: nat, width: nat, height: nat,
                     scalable: bool)
    requires op.Valid() && size > 0 && height > 0 && op.limits.Contains(mem[..])
    requires Covers(mem.Length, base, stride / size, width, height)
    modifies op
    ensures op.Valid()
    ensures op.Consumed() == old(op.Consumed()) + Values(Pixels(mem[..], base, stride / size, width, height))
  {
    if stride == width * size {
      DivModUnique(width, 0, size);
      ApplyFlattened(op, mem, base, width, height, scalable);
    } else {
      ApplyEachRow(op, mem, base, stride / size, width, height, scalable);
    }
  }

  lemma SliceContained(limits: Limits, s: seq<int>, from: nat, to: nat)
    requires limits.Contains(s) && from <= to <= |s|
    ensures limits.Contains(s[from..to])
  {
    forall x | x in s[from..to] ensures limits.lowest <= x <= limits.highest {
      assert x in s;
    }
  }

  method ApplyFlattened(op: MinMax, mem: array<int>, base: nat, width: nat, height: nat, scalable: bool)
    requires op.Valid() && height > 0 && op.limits.Contains(mem[..])
    requires Covers(mem.Length, base, width, width, height)
    modifies op
    ensures op.Valid()
    ensures op.Consumed() == old(op.Consumed()) + Values(Pixels(mem[..], base, width, width, height))
  {
    hide Accumulates, IsExtreme, Values, Pixels, Covers, Area, MinMax.Valid, Limits.Contains;
    ContinuousPixels(mem[..], base, width, height);
    SliceContained(op.limits, mem[..], base, base + Area(width, height));
    assert mem[..][base..base + Area(width, height)] == mem[base..base + Area(width, height)];
    ProcessValues(op, mem[base..base + Area(width, height)], scalable);
  }

  method ApplyEachRow(op: MinMax, mem: array<int>, base: nat, stride: nat, width: nat, height: nat, scalable: bool)
    requires op.Valid() && op.limits.Contains(mem[..])
    requires Covers(mem.Length, base, stride, width, height)
    modifies op
    ensures op.Valid()
    ensures op.Consumed() == old(op.Consumed()) + Values(Pixels(mem[..], base, stride, width, height))
  {
    hide Accumulates, IsExtreme, Values, Pixels, Covers, MinMax.Valid, Limits.Contains;
    ghost var was, s := op.Consumed(), mem[..];
    NoPixels(s, base, stride, width);
    assert Values(Pixels(s, base, stride, width, 0)) == {} by { NoValues(); }
    for row := 0 to height
      invariant op.Valid() && Covers(|s|, base, stride, width, row)
      invariant op.Consumed() == was + Values(Pixels(s, base, stride, width, row))
    {
      PixelsStep(s, base, stride, width, height, row);
      var start := RowStart(base, stride, row);
      SliceContained(op.limits, s, start, start + width);
      ValuesOfConcat(Pixels(s, base, stride, width, row), s[start..start + width]);
      assert s[start..start + width] == mem[start..start + width];
      ProcessValues(op, mem[start..start + width], scalable);
    }
  }

  // The smallest pixel, as a value: it occurs, and no pixel is smaller.
  lemma SmallestPixel(mem: seq<int>, base: nat, stride: nat, width: nat, height: nat, limits: Limits, m: int)
    requires Covers(|mem|, base, stride, width, height) && limits.Contains(mem) && width > 0 && height > 0
    requires IsExtreme(Smallest, limits.highest, Values(Pixels(mem, base, stride, width, height)), m)
    ensures forall y: nat, x: nat | y < height && x < width ::
              PixelAt(base, stride, y, x) < |mem| && m <= mem[PixelAt(base, stride, y, x)]
    ensures exists y: nat, x: nat | y < height && x < width ::
              PixelAt(base, stride, y, x) < |mem| && mem[PixelAt(base, stride, y, x)] == m
  {
    hide Pixels, Covers, RowStart, PixelAt;
    forall y: nat, x: nat | y < height && x < width
      ensures PixelAt(base, stride, y, x) < |mem| && m <= mem[PixelAt(base, stride, y, x)] <= limits.highest
    {
      PixelOfIndex(mem, base, stride, width, height, y, x);
      var s := Pixels(mem, base, stride, width, height);
      assert s[PixelAt(0, width, y, x)] in s;
      assert mem[PixelAt(base, stride, y, x)] in Values(s);
      assert mem[PixelAt(base, stride, y, x)] in mem;
    }
    if m == limits.highest {
      assert m <= mem[PixelAt(base, stride, 0, 0)] <= m;
    } else {
      var y, x := ValueOfPixel(mem, base, stride, width, height, m);
    }
  }

  // The largest pixel, as a value: it occurs, and no pixel is greater.
  lemma LargestPixel(mem: seq<int>, base: nat, stride: nat, width: nat, height: nat, limits: Limits, m: int)
    requires Covers(|mem|, base, stride, width, height) && limits.Contains(mem) && width > 0 && height > 0
    requires IsExtreme(Largest, limits.lowest, Values(Pixels(mem, base, stride, width, height)), m)
    ensures forall y: nat, x: nat | y < height && x < width ::
              PixelAt(base, stride, y, x) < |mem| && mem[PixelAt(base, stride, y, x)] <= m
    ensures exists y: nat, x: nat | y < height && x < width ::
              PixelAt(base, stride, y, x) < |mem| && mem[PixelAt(base, stride, y, x)] == m
  {
    hide Pixels, Covers, RowStart, PixelAt;
    forall y: nat, x: nat | y < height && x < width
      ensures PixelAt(base, stride, y, x) < |mem| && limits.lowest <= mem[PixelAt(base, stride, y, x)] <= m
    {
      PixelOfIndex(mem, base, stride, width, height, y, x);
      var s := Pixels(mem, base, stride, width, height);
      assert s[PixelAt(0, width, y, x)] in s;
      assert mem[PixelAt(base, stride, y, x)] in Values(s);
      assert mem[PixelAt(base, stride, y, x)] in mem;
    }
    if m == limits.lowest {
      assert m <= mem[PixelAt(base, stride, 0, 0)] <= m;
    } else {
      var y, x := ValueOfPixel(mem, base, stride, width, height, m);
    }
  }

  // min_max and min_max_sc on elements of the given size in bytes: the extremes of all pixels.
  method MinMaxOf(mem: array?<int>, base: nat, stride: nat, size: nat, width: nat, height: nat, limits: Limits,
                  lanes: nat, scalable: bool, wantMin: bool, wantMax: bool)
    returns (error: Error, min: Option<int>, max: Option<int>)
    requires size > 0 && lanes > 0
    requires mem != null ==> Covers(mem.Length, base, stride / size, width, height) && limits.Contains(mem[..])
    ensures error == ImageResult(mem != null, stride % size == 0, width, height)
    ensures (min.Some? <==> error == Ok && wantMin) && (max.Some? <==> error == Ok && wantMax)
    ensures min.Some? ==>
              IsExtreme(Smallest, limits.highest, Values(Pixels(mem[..], base, stride / size, width, height)),
                        min.value)
    ensures max.Some? ==>
              IsExtreme(Largest, limits.lowest, Values(Pixels(mem[..], base, stride / size, width, height)),
                        max.value)
    ensures min.Some? ==>
              && (forall y: nat, x: nat | y < height && x < width ::
                    var at := PixelAt(base, stride / size, y, x); at < mem.Length && min.value <= mem[at])
              && (exists y: nat, x: nat | y < height && x < width ::
                    var at := PixelAt(base, stride / size, y, x); at < mem.Length && mem[at] == min.value)
    ensures max.Some? ==>
              && (forall y: nat, x: nat | y < height && x < width ::
                    var at := PixelAt(base, stride / size, y, x); at < mem.Length && mem[at] <= max.value)
              && (exists y: nat, x: nat | y < height && x < width ::
                    var at := PixelAt(base, stride / size, y, x); at < mem.Length && mem[at] == max.value)
  {
    hide Accumulates, IsExtreme, Values, Pixels, Covers, PixelAt, Limits.Contains;
    min, max := None, None;
    if mem == null {
      return NullPointer, None, None;
    }
    if height > 1 && stride % size != 0 {
      return Alignment, None, None;
    }
    if !ImageSizeAccepted(width, height) || width == 0 || height == 0 {
      return OutOfRange, None, None;
    }
    error := Ok;
    var op := new MinMax(limits, lanes);
    ApplyByRows(op, mem, base, stride, size, width, height, scalable);
    assert op.Consumed() == Values(Pixels(mem[..], base, stride / size, width, height));
    if wantMin {
      var m := op.GetMin();
      min := Some(m);
      SmallestPixel(mem[..], base, stride / size, width, height, limits, m);
    }
    if wantMax {
      var m := op.GetMax();
      max := Some(m);
      LargestPixel(mem[..], base, stride / size, width, height, limits, m);
    }
  }

  // --- Stripes ----------------------------------------------------------------------------------

  // reduce_min and reduce_max
  method Reduce(d: Direction, values: array<int>, count: nat, limits: Limits) returns (result: int)
    requires count <= values.Length
    ensures result == Fold(d, Identity(limits, d), values[..count])
  {
    result := Identity(limits, d);
    for i := 0 to count
      invariant result == Fold(d, Identity(limits, d), values[..i])
    {
      assert values[..i + 1][..i] == values[..i];
      result := Pick(d, result, values[i]);
    }
  }

  // The image that a threaded call works on: its elements, the distance of rows in elements and whether it is exact.
  datatype Source = Source(mem: seq<int>, stride: nat, strideAligned: bool, width: nat, height: nat) {
    predicate Valid() {
      Covers(|mem|, 0, stride, width, height)
    }

    predicate IsSearchable(b: Range) {
      StripeResult(true, strideAligned, stride, width, b) == Some(Ok)
    }

    // The values of the pixels of a stripe.
    ghost function StripeValues(b: Range): set<int>
      requires Valid() && b.begin <= b.end <= height
    {
      StripeIsCovered(|mem|, stride, width, height, b.begin, b.end);
      Values(Pixels(mem, RowStart(0, stride, b.begin), stride, width, b.end - b.begin))
    }

    // The values of the stripes among the first n that can be searched.
    ghost function SearchedValues(batches: seq<Range>, n: nat): set<int>
      requires Valid() && n <= |batches|
      requires forall k :: 0 <= k < |batches| ==> batches[k].begin <= batches[k].end <= height
    {
      if n == 0 then {}
      else SearchedValues(batches, n - 1) + if IsSearchable(batches[n - 1]) then StripeValues(batches[n - 1]) else {}
    }
  }

  // A value is found at some pixel.
  lemma ValueOfPixel<T>(mem: seq<T>, base: nat, stride: nat, width: nat, height: nat, v: T) returns (y: nat, x: nat)
    requires Covers(|mem|, base, stride, width, height) && v in Pixels(mem, base, stride, width, height)
    ensures y < height && x < width && PixelAt(base, stride, y, x) < |mem| && mem[PixelAt(base, stride, y, x)] == v
  {
    var s := Pixels(mem, base, stride, width, height);
    var i :| 0 <= i < |s| && s[i] == v;
    RowStartIs(0, width, height);
    DivBound(i, width, height);
    y, x := i / width, i % width;
    RowStartIs(0, width, y);
    PixelOfIndex(mem, base, stride, width, height, y, x);
  }

  // Stripes that partition the rows contain the values of the image.
  lemma ValuesOfStripes(src: Source, batches: seq<Range>)
    requires src.Valid() && IsPartition(batches, src.height)
    requires forall k :: 0 <= k < |batches| ==> src.IsSearchable(batches[k])
    ensures src.SearchedValues(batches, |batches|) == Values(Pixels(src.mem, 0, src.stride, src.width, src.height))
  {
    hide Pixels, Source.StripeValues, Source.SearchedValues, Source.IsSearchable, Covers, IsCovered;
    var all := Pixels(src.mem, 0, src.stride, src.width, src.height);
    forall v | v in all ensures v in src.SearchedValues(batches, |batches|) {
      var y, x := ValueOfPixel(src.mem, 0, src.stride, src.width, src.height, v);
      Covering(batches, y, src.height);
      var k :| 0 <= k < |batches| && InRange(batches[k], y);
      PixelOfStripe(src, batches[k], y, x);
      SearchedContains(src, batches, k, |batches|, v);
    }
    forall v | v in src.SearchedValues(batches, |batches|) ensures v in all {
      SearchedIsPixel(src, batches, |batches|, v);
    }
  }

  lemma Covering(batches: seq<Range>, y: nat, height: nat)
    requires y < height && IsPartition(batches, height)
    ensures exists k :: 0 <= k < |batches| && InRange(batches[k], y)
  {
    assert IsCovered(batches, y);
  }

  // A pixel belongs to the stripe of its row.
  lemma PixelOfStripe(src: Source, b: Range, y: nat, x: nat)
    requires src.Valid() && InRange(b, y) && b.end <= src.height && x < src.width
    ensures PixelAt(0, src.stride, y, x) < |src.mem| && src.mem[PixelAt(0, src.stride, y, x)] in src.StripeValues(b)
  {
    var base := RowStart(0, src.stride, b.begin);
    StripeIsCovered(|src.mem|, src.stride, src.width, src.height, b.begin, b.end);
    RowStartShift(0, src.stride, b.begin, y - b.begin);
    PixelOfIndex(src.mem, base, src.stride, src.width, b.end - b.begin, y - b.begin, x);
    assert PixelAt(base, src.stride, y - b.begin, x) == PixelAt(0, src.stride, y, x);
  }

  lemma {:induction false} SearchedContains(src: Source, batches: seq<Range>, k: nat, n: nat, v: int)
    requires src.Valid() && k < n <= |batches|
    requires forall j :: 0 <= j < |batches| ==> batches[j].begin <= batches[j].end <= src.height
    requires src.IsSearchable(batches[k]) && v in src.StripeValues(batches[k])
    ensures v in src.SearchedValues(batches, n)
  {
    if k < n - 1 { SearchedContains(src, batches, k, n - 1, v); }
  }

  lemma {:induction false} SearchedIsPixel(src: Source, batches: seq<Range>, n: nat, v: int)
    requires src.Valid() && n <= |batches|
    requires forall j :: 0 <= j < |batches| ==> batches[j].begin <= batches[j].end <= src.height
    requires v in src.SearchedValues(batches, n)
    ensures v in Pixels(src.mem, 0, src.stride, src.width, src.height)
  {
    hide Pixels, Covers, StripeResult;
    if v in src.SearchedValues(batches, n - 1) {
      SearchedIsPixel(src, batches, n - 1, v);
    } else {
      var b := batches[n - 1];
      StripeIsCovered(|src.mem|, src.stride, src.width, src.height, b.begin, b.end);
      var y, x := ValueOfPixel(src.mem, RowStart(0, src.stride, b.begin), src.stride, src.width, b.end - b.begin, v);
      RowStartShift(0, src.stride, b.begin, y);
      PixelOfIndex(src.mem, 0, src.stride, src.width, src.height, b.begin + y, x);
    }
  }

  // The slots accumulate the values of the stripes searched so far; slots of no such stripe hold the identity.
  ghost predicate SlotsCover(d: Direction, identity: int, src: Source, slots: seq<int>, batches: seq<Range>, n: nat)
    requires src.Valid() && n <= |batches|
    requires forall k :: 0 <= k < |batches| ==> batches[k].begin <= batches[k].end <= src.height
  {
    && src.height <= |slots|
    && Accumulates(d, identity, slots, src.SearchedValues(batches, n))
    && (forall i :: 0 <= i < |slots| && !IsSearchStart(src, batches, n, i) ==> slots[i] == identity)
  }

  ghost predicate IsSearchStart(src: Source, batches: seq<Range>, n: nat, i: nat) {
    exists k :: 0 <= k < n && k < |batches| && src.IsSearchable(batches[k]) && batches[k].begin == i
  }

  // A value stays covered when a slot with the identity gets something that is no worse.
  lemma CoverKept(d: Direction, identity: int, slots: seq<int>, i: nat, m: int, x: int)
    requires i < |slots| && slots[i] == identity && !Better(d, identity, m) && IsCoveredBy(d, slots, x)
    ensures IsCoveredBy(d, slots[i := m], x)
  {
    var l :| 0 <= l < |slots| && !Better(d, x, slots[l]);
    assert !Better(d, x, slots[i := m][l]);
  }

  // Storing the extreme of more values in a slot that holds the identity.
  lemma AccumulateInSlot(d: Direction, identity: int, slots: seq<int>, seen: set<int>, i: nat, values: set<int>, m: int)
    requires Accumulates(d, identity, slots, seen) && i < |slots| && slots[i] == identity
    requires IsExtreme(d, identity, values, m)
    ensures Accumulates(d, identity, slots[i := m], seen + values)
  {
    hide IsCoveredBy, Better;
    var slots' := slots[i := m];
    forall x | x in seen + values ensures IsCoveredBy(d, slots', x) {
      if x in values {
        CoveredBySlot(d, slots', x, i);
      } else {
        CoverKept(d, identity, slots, i, m, x);
      }
    }
  }

  lemma CoveredBySlot(d: Direction, slots: seq<int>, x: int, i: nat)
    requires i < |slots| && !Better(d, x, slots[i])
    ensures IsCoveredBy(d, slots, x)
  {
  }

  lemma StoreSlot(d: Direction, identity: int, src: Source, slots: seq<int>, batches: seq<Range>, n: nat, m: int)
    requires src.Valid() && n < |batches| && IsSplit(batches, src.height)
    requires SlotsCover(d, identity, src, slots, batches, n) && src.IsSearchable(batches[n])
    requires IsExtreme(d, identity, src.StripeValues(batches[n]), m)
    ensures batches[n].begin < |slots|
    ensures SlotsCover(d, identity, src, slots[batches[n].begin := m], batches, n + 1)
  {
    hide Accumulates, IsExtreme, Source.StripeValues, Source.Valid, IsCovered;
    var b := batches[n];
    assert b.begin < b.end;
    hide Source.IsSearchable;
    assert !IsSearchStart(src, batches, n, b.begin) by {
      NotStartedTwice(src, batches, n);
    }
    AccumulateInSlot(d, identity, slots, src.SearchedValues(batches, n), b.begin, src.StripeValues(b), m);
    var slots' := slots[b.begin := m];
    forall i | 0 <= i < |slots'| && !IsSearchStart(src, batches, n + 1, i) ensures slots'[i] == identity {
      assert i != b.begin && !IsSearchStart(src, batches, n, i);
    }
  }

  lemma NotStartedTwice(src: Source, batches: seq<Range>, n: nat)
    requires n < |batches| && IsSplit(batches, src.height) && src.IsSearchable(batches[n])
    ensures !IsSearchStart(src, batches, n, batches[n].begin)
  {
    hide IsCovered, ImageSizeAccepted;
    forall k | 0 <= k < n && src.IsSearchable(batches[k]) ensures batches[k].begin != batches[n].begin {
      assert InRange(batches[k], batches[k].begin) && InRange(batches[n], batches[n].begin);
    }
  }

  lemma KeepSlots(d: Direction, identity: int, src: Source, slots: seq<int>, batches: seq<Range>, n: nat)
    requires src.Valid() && n < |batches| && IsSplit(batches, src.height)
    requires SlotsCover(d, identity, src, slots, batches, n) && !src.IsSearchable(batches[n])
    ensures SlotsCover(d, identity, src, slots, batches, n + 1)
  {
    hide Source.IsSearchable, Source.StripeValues, Source.Valid;
    forall i | 0 <= i < |slots| && !IsSearchStart(src, batches, n + 1, i) ensures slots[i] == identity {
      assert !IsSearchStart(src, batches, n, i);
    }
  }

  // The fold of slots that accumulate values is the extreme of these values.
  lemma SlotsGiveExtreme(d: Direction, identity: int, slots: seq<int>, seen: set<int>)
    requires Accumulates(d, identity, slots, seen)
    ensures IsExtreme(d, identity, seen, Fold(d, identity, slots))
  {
    hide Fold;
    FoldIsExtreme(d, identity, slots);
    var m := Fold(d, identity, slots);
    forall x | x in seen ensures !Better(d, x, m) {
      assert IsCoveredBy(d, slots, x);
      var l :| 0 <= l < |slots| && !Better(d, x, slots[l]);
      assert slots[l] in Values(slots);
    }
    if m in Values(slots) {
      var l :| 0 <= l < |slots| && slots[l] == m;
    }
  }

  // Slots beyond the last row hold the identity, so that folding the rows folds all slots.
  lemma {:induction false} FoldOfRows(d: Direction, identity: int, slots: seq<int>, rows: nat)
    requires rows <= |slots| && forall i :: rows <= i < |slots| ==> slots[i] == identity
    requires forall i :: 0 <= i < |slots| ==> !Better(d, identity, slots[i])
    ensures Fold(d, identity, slots[..rows]) == Fold(d, identity, slots)
  {
    var n := |slots| - 1;
    if rows == |slots| {
      assert slots[..rows] == slots;
    } else {
      FoldOfRows(d, identity, slots[..n], rows);
      assert slots[..n][..rows] == slots[..rows];
      FoldIsExtreme(d, identity, slots[..n]);
    }
  }

  /** What a threaded call does: it returns, or reads where there is no image, after which nothing is known. */
  datatype Outcome = Returned(error: Error, min: Option<int>, max: Option<int>) | ReadsOutside

  // A direction's slots after n calls; without a source no call stores anything.
  ghost predicate SlotsAfter(d: Direction, limits: Limits, present: bool, src: Source, slots: array<int>,
                             batches: seq<Range>, n: nat)
    reads slots
  {
    && n <= |batches| && src.height <= slots.Length
    && (forall k :: 0 <= k < |batches| ==> batches[k].begin <= batches[k].end <= src.height)
    && (present ==> src.Valid() && SlotsCover(d, Identity(limits, d), src, slots[..], batches, n))
    && (!present ==> forall i :: 0 <= i < slots.Length ==> slots[i] == Identity(limits, d))
  }

  // The image at the source; without a source it has no elements.
  ghost function SourceOf(mem: array?<int>, stride: nat, size: nat, width: nat, height: nat): Source
    requires size > 0
    reads mem
  {
    Source(if mem == null then [] else mem[..], stride / size, stride % size == 0, width, height)
  }

  method NewSlots(d: Direction, limits: Limits, ghost present: bool, ghost src: Source, height: nat,
                  batches: seq<Range>)
    returns (slots: array<int>)
    requires src.height == height && IsSplit(batches, height) && (present ==> src.Valid())
    ensures fresh(slots) && SlotsAfter(d, limits, present, src, slots, batches, 0)
  {
    slots := new int[Max(1, height)](_ => Identity(limits, d));
  }

  // The callback of one batch: the search on its rows, with the slots of its first row as destinations.
  method SearchStripe(mem: array?<int>, stride: nat, size: nat, width: nat, height: nat, limits: Limits, lanes: nat,
                      scalable: bool, minSlots: array?<int>, maxSlots: array?<int>, batches: seq<Range>, k: nat)
    returns (result: Option<Error>)
    requires size > 0 && lanes > 0 && IsSplit(batches, height) && k < |batches|
    requires mem != null ==> Covers(mem.Length, 0, stride / size, width, height) && limits.Contains(mem[..])
    requires minSlots != null ==> minSlots != maxSlots && minSlots != mem
    requires maxSlots != null ==> maxSlots != mem
    requires minSlots != null ==>
               SlotsAfter(Smallest, limits, mem != null, SourceOf(mem, stride, size, width, height), minSlots,
                          batches, k)
    requires maxSlots != null ==>
               SlotsAfter(Largest, limits, mem != null, SourceOf(mem, stride, size, width, height), maxSlots,
                          batches, k)
    modifies minSlots, maxSlots
    ensures result == StripeResult(mem != null, stride % size == 0, stride / size, width, batches[k])
    ensures minSlots != null ==>
              SlotsAfter(Smallest, limits, mem != null, SourceOf(mem, stride, size, width, height), minSlots,
                         batches, k + 1)
    ensures maxSlots != null ==>
              SlotsAfter(Largest, limits, mem != null, SourceOf(mem, stride, size, width, height), maxSlots,
                         batches, k + 1)
  {
    hide IsExtreme, SlotsCover, Covers, IsPartition, RowStart, ImageSizeAccepted, Values, Pixels;
    var b := batches[k];
    var start := RowStart(0, stride / size, b.begin);
    if mem == null && start != 0 {
      return StripeResult(false, stride % size == 0, stride / size, width, b);
    }
    if mem != null {
      StripeIsCovered(mem.Length, stride / size, width, height, b.begin, b.end);
    }
    ghost var src := SourceOf(mem, stride, size, width, height);
    var error, min, max := MinMaxOf(mem, start, stride, size, width, b.end - b.begin, limits, lanes, scalable,
                                    minSlots != null, maxSlots != null);
    if minSlots != null {
      StoreResult(Smallest, limits, mem != null, src, minSlots, batches, k, min);
    }
    if maxSlots != null {
      StoreResult(Largest, limits, mem != null, src, maxSlots, batches, k, max);
    }
    result := Some(error);
  }

  // Stores a value, if there is one, through the destination pointer of the call.
  method StoreResult(d: Direction, limits: Limits, ghost present: bool, ghost src: Source, slots: array<int>,
                     batches: seq<Range>, k: nat, m: Option<int>)
    requires IsSplit(batches, src.height) && k < |batches|
    requires SlotsAfter(d, limits, present, src, slots, batches, k)
    requires m.Some? <==> present && src.IsSearchable(batches[k])
    requires m.Some? ==> IsExtreme(d, Identity(limits, d), src.StripeValues(batches[k]), m.value)
    modifies slots
    ensures SlotsAfter(d, limits, present, src, slots, batches, k + 1)
  {
    hide IsExtreme, SlotsCover, IsPartition, Source.IsSearchable, Source.StripeValues, Source.Valid;
    ghost var was, identity := slots[..], Identity(limits, d);
    if m.Some? {
      StoreSlot(d, identity, src, was, batches, k, m.value);
      slots[batches[k].begin] := m.value;
      assert slots[..] == was[batches[k].begin := m.value];
    } else if present {
      KeepSlots(d, identity, src, was, batches, k);
    }
  }

  // All callbacks, in the order in which the scheduler runs them. scalable tells which variant each of them uses.
  method SearchStripes(mem: array?<int>, stride: nat, size: nat, width: nat, height: nat, limits: Limits, lanes: nat,
                       scalable: seq<bool>, minSlots: array?<int>, maxSlots: array?<int>, batches: seq<Range>)
    returns (result: Option<Error>)
    requires size > 0 && lanes > 0 && IsSplit(batches, height) && |scalable| == |batches|
    requires mem != null ==> Covers(mem.Length, 0, stride / size, width, height) && limits.Contains(mem[..])
    requires minSlots != null ==> minSlots != maxSlots && minSlots != mem
    requires maxSlots != null ==> maxSlots != mem
    requires minSlots != null ==>
               SlotsAfter(Smallest, limits, mem != null, SourceOf(mem, stride, size, width, height), minSlots,
                          batches, 0)
    requires maxSlots != null ==>
               SlotsAfter(Largest, limits, mem != null, SourceOf(mem, stride, size, width, height), maxSlots,
                          batches, 0)
    modifies minSlots, maxSlots
    ensures result.Some? <==> StayInside(mem != null, stride % size == 0, stride / size, width, batches)
    ensures result.Some? ==>
              IsCallResult(mem != null, stride % size == 0, stride / size, width, batches, result.value)
    ensures result.Some? && minSlots != null ==>
              SlotsAfter(Smallest, limits, mem != null, SourceOf(mem, stride, size, width, height), minSlots, batches,
                         |batches|)
    ensures result.Some? && maxSlots != null ==>
              SlotsAfter(Largest, limits, mem != null, SourceOf(mem, stride, size, width, height), maxSlots, batches,
                         |batches|)
  {
    hide SlotsAfter, Covers, IsSplit, StripeResult;
    var error := Ok;
    ghost var src := SourceOf(mem, stride, size, width, height);
    for k := 0 to |batches|
      invariant SourceOf(mem, stride, size, width, height) == src
      invariant mem != null ==> limits.Contains(mem[..])
      invariant StayInside(mem != null, stride % size == 0, stride / size, width, batches[..k])
      invariant IsCallResult(mem != null, stride % size == 0, stride / size, width, batches[..k], error)
      invariant minSlots != null ==> SlotsAfter(Smallest, limits, mem != null, src, minSlots, batches, k)
      invariant maxSlots != null ==> SlotsAfter(Largest, limits, mem != null, src, maxSlots, batches, k)
    {
      var stripe := SearchStripe(mem, stride, size, width, height, limits, lanes, scalable[k], minSlots, maxSlots,
                                 batches, k);
      if stripe.None? {
        return None;
      }
      OneMoreCall(mem != null, stride % size == 0, stride / size, width, batches, k, error);
      if stripe.value != Ok {
        error := stripe.value;
      }
    }
    assert batches[..|batches|] == batches;
    result := Some(error);
  }

  // What the reduction gives: the extreme of the stripes that could be searched.
  method ReduceSlots(d: Direction, limits: Limits, ghost present: bool, ghost src: Source, slots: array<int>,
                     height: nat, batches: seq<Range>)
    returns (m: int)
    requires src.height == height && SlotsAfter(d, limits, present, src, slots, batches, |batches|)
    requires IsSplit(batches, height)
    ensures IsExtreme(d, Identity(limits, d), if present then src.SearchedValues(batches, |batches|) else {}, m)
  {
    hide IsExtreme, Fold, Source.IsSearchable, Source.StripeValues, Source.Valid, IsPartition, Source.SearchedValues;
    ghost var identity, s := Identity(limits, d), slots[..];
    ghost var seen := if present then src.SearchedValues(batches, |batches|) else {};
    assert Accumulates(d, identity, s, seen);
    forall i | height <= i < |s| ensures s[i] == identity {
      if present && IsSearchStart(src, batches, |batches|, i) {
        var k :| 0 <= k < |batches| && src.IsSearchable(batches[k]) && batches[k].begin == i;
        SearchableIsNotEmpty(src, batches[k]);
      }
    }
    SlotsGiveExtreme(d, identity, s, seen);
    FoldOfRows(d, identity, s, height);
    m := Reduce(d, slots, height, limits);
  }

  lemma SearchableIsNotEmpty(src: Source, b: Range)
    requires src.IsSearchable(b)
    ensures b.begin < b.end
  {
  }

  // parallel_min_max: for every schedule, and whichever variant each batch uses, the extremes of the whole image; after
  // failures, those of the stripes that could be searched.
  method ParallelMinMax(mem: array?<int>, stride: nat, size: nat, width: nat, height: nat, limits: Limits, lanes: nat,
                        scalable: seq<bool>, wantMin: bool, wantMax: bool, schedule: seq<Range>, memoryLeft: bool)
    returns (outcome: Outcome)
    requires size > 0 && lanes > 0 && |scalable| == |schedule| && IsPartition(schedule, TaskCount(height, 1))
    requires mem != null ==> Covers(mem.Length, 0, stride / size, width, height) && limits.Contains(mem[..])
    ensures (wantMin || wantMax) && !memoryLeft ==> outcome == Returned(Allocation, None, None)
    ensures !((wantMin || wantMax) && !memoryLeft) ==>
              var batches := BatchesOf(schedule, height, 1);
              && (outcome.Returned? <==> StayInside(mem != null, stride % size == 0, stride / size, width, batches))
              && (outcome.Returned? ==>
                    && IsCallResult(mem != null, stride % size == 0, stride / size, width, batches, outcome.error)
                    && (outcome.min.Some? <==> wantMin) && (outcome.max.Some? <==> wantMax))
    ensures outcome.Returned? && outcome.error == Ok ==>
              && mem != null
              && (wantMin ==> IsExtreme(Smallest, limits.highest,
                                        Values(Pixels(mem[..], 0, stride / size, width, height)), outcome.min.value))
              && (wantMax ==> IsExtreme(Largest, limits.lowest,
                                        Values(Pixels(mem[..], 0, stride / size, width, height)), outcome.max.value))
    ensures outcome.Returned? && outcome.error == Ok && wantMin ==>
              && (forall y: nat, x: nat | y < height && x < width ::
                    var at := PixelAt(0, stride / size, y, x); at < mem.Length && outcome.min.value <= mem[at])
              && (exists y: nat, x: nat | y < height && x < width ::
                    var at := PixelAt(0, stride / size, y, x); at < mem.Length && mem[at] == outcome.min.value)
    ensures outcome.Returned? && outcome.error == Ok && wantMax ==>
              && (forall y: nat, x: nat | y < height && x < width ::
                    var at := PixelAt(0, stride / size, y, x); at < mem.Length && mem[at] <= outcome.max.value)
              && (exists y: nat, x: nat | y < height && x < width ::
                    var at := PixelAt(0, stride / size, y, x); at < mem.Length && mem[at] == outcome.max.value)
    ensures outcome.Returned? && outcome.error != Allocation ==>
              var src, batches := SourceOf(mem, stride, size, width, height), BatchesOf(schedule, height, 1);
              && IsSplit(batches, height) && (mem != null ==> src.Valid())
              && var seen := if mem != null then src.SearchedValues(batches, |batches|) else {};
                 && (wantMin ==> IsExtreme(Smallest, limits.highest, seen, outcome.min.value))
                 && (wantMax ==> IsExtreme(Largest, limits.lowest, seen, outcome.max.value))
  {
    hide IsPartition, IsExtreme, TaskCount, BatchesOf, Covers, AllSucceed, StayInside, SlotsCover, IsSplit, Pixels,
         Values, Source.SearchedValues;
    var batches := BatchesOf(schedule, height, 1);
    BatchesSplit(schedule, height, 1);
    if (wantMin || wantMax) && !memoryLeft {
      return Returned(Allocation, None, None);
    }
    ghost var present, src := mem != null, SourceOf(mem, stride, size, width, height);
    var minSlots: array?<int>, maxSlots: array?<int> := null, null;
    if wantMin {
      minSlots := NewSlots(Smallest, limits, present, src, height, batches);
    }
    if wantMax {
      maxSlots := NewSlots(Largest, limits, present, src, height, batches);
    }
    var result := SearchStripes(mem, stride, size, width, height, limits, lanes, scalable, minSlots, maxSlots, batches);
    if result.None? {
      return ReadsOutside;
    }
    WhenSuccessful(present, src, schedule, result.value);
    var min, max := None, None;
    if wantMin {
      var m := ReduceSlots(Smallest, limits, present, src, minSlots, height, batches);
      min := Some(m);
    }
    if wantMax {
      var m := ReduceSlots(Largest, limits, present, src, maxSlots, height, batches);
      max := Some(m);
    }
    outcome := Returned(result.value, min, max);
    if result.value == Ok && wantMin {
      SmallestPixel(mem[..], 0, stride / size, width, height, limits, min.value);
    }
    if result.value == Ok && wantMax {
      LargestPixel(mem[..], 0, stride / size, width, height, limits, max.value);
    }
  }

  // Success needs a source, and then the stripes contain the values of the whole image.
  lemma WhenSuccessful(present: bool, src: Source, schedule: seq<Range>, error: Error)
    requires IsPartition(schedule, TaskCount(src.height, 1)) && (present ==> src.Valid())
    requires IsCallResult(present, src.strideAligned, src.stride, src.width, BatchesOf(schedule, src.height, 1), error)
    ensures IsSplit(BatchesOf(schedule, src.height, 1), src.height)
    ensures error == Ok ==>
              && present && src.width > 0 && src.height > 0
              && src.SearchedValues(BatchesOf(schedule, src.height, 1), |schedule|)
                 == Values(Pixels(src.mem, 0, src.stride, src.width, src.height))
  {
    hide TaskCount, BatchesOf, StripeResult, Pixels, Source.SearchedValues, Source.Valid;
    var batches := BatchesOf(schedule, src.height, 1);
    BatchesSplit(schedule, src.height, 1);
    if error == Ok {
      WhenSingleCallSucceeds(src.strideAligned, src.stride, src.width, schedule, src.height);
      NeverSucceedsWithoutSource(src.strideAligned, src.stride, src.width, schedule, src.height);
      ValuesOfStripes(src, batches);
    }
  }
}
