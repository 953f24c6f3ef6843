/** The blocked arg-min/arg-max operation: 8-bit per-lane offsets relative to a block base index, a
    separate scalar path, and the reconstruction of the index of the first extreme element. */
module MinMaxLocOperation {
  import opened Basics
  import opened Extremum
  import opened Lanes

  // Vectors per block: -1 keeps the running offset a byte, and rounding to pairs loses none of it.
  const MAX_VECTORS_PER_BLOCK: nat := 254

  /** The fields the source keeps once for the minimum and once for the maximum. */
  datatype Tracker = Tracker(
    newValues: Vector,    // best value per lane, seeded with the overall best at block start
    newOffsets: Vector,   // 1-based vector number in this block where newValues was reached, 0 if not
    values: Vector,       // values of the lanes as of the last block that updated them
    offsets: Vector,      // newOffsets of that block
    blockIndex: nat,      // start of the last block that updated any lane
    vectorBest: Byte,     // best element seen by finished blocks
    scalarBest: Byte,     // best element seen by the scalar path
    scalarIndex: nat)     // its first index

  function Fresh(d: Direction): Tracker {
    var worst := Dup(Worst(d));
    Tracker(worst, Dup(0), worst, Dup(0), 0, Worst(d), Worst(d), 0)
  }

  function TrackVector(d: Direction, t: Tracker, runningOffset: Vector, src: Vector): Tracker {
    var isBetter := CompareBetter(d, src, t.newValues);
    t.(newOffsets := Select(isBetter, runningOffset, t.newOffsets),
       newValues := BestLanes(d, t.newValues, src))
  }

  function TrackScalar(d: Direction, t: Tracker, runningIndex: nat, src: Byte): Tracker {
    if Better(d, src, t.scalarBest) then t.(scalarBest := src, scalarIndex := runningIndex) else t
  }

  function FinishBlock(d: Direction, t: Tracker, runningIndex: nat): Tracker {
    var best := Across(d, t.newValues);
    var noUpdate := CompareZero(t.newOffsets);
    t.(vectorBest := best,
       blockIndex := if HorizontalMaxU32(t.newOffsets) != 0 then runningIndex else t.blockIndex,
       offsets := Select(noUpdate, t.offsets, t.newOffsets),
       values := Select(noUpdate, t.values, t.newValues),
       newValues := Dup(best),
       newOffsets := Dup(0))
  }

  // Lanes that do not hold the overall best value get an offset larger than every real one.
  function SelectedOffsets(d: Direction, t: Tracker): Vector {
    Select(CompareNoWorse(d, t.values, t.newValues), t.offsets, Dup(255))
  }

  function BestIndex(d: Direction, t: Tracker): nat {
    if Better(d, t.scalarBest, t.vectorBest) then t.scalarIndex
    else
      var selected := SelectedOffsets(d, t);
      var earliest := Across(Smallest, selected);
      if earliest == 0 then t.scalarIndex
      else
        var vectorIndex := t.blockIndex + (earliest - 1) * LANES + LaneOfFirstSmallest(selected, earliest);
        if Better(d, t.vectorBest, t.scalarBest) || vectorIndex < t.scalarIndex then vectorIndex else t.scalarIndex
  }

  // --- What the fields mean ---------------------------------------------------------------------
  //
  // s is the sequence of elements consumed so far, and via[i] tells whether s[i] came by vector.

  // The element that lane l read from the vector numbered j of the block starting at base.
  function At(base: nat, j: int, l: nat): int {
    base + j * LANES + l
  }

  // The block in progress started at base and has consumed k vectors.
  ghost predicate BlockInProgress(d: Direction, t: Tracker, s: seq<Byte>, base: nat, k: nat) {
    && |s| == base + k * LANES
    && (forall l :: 0 <= l < LANES ==> LaneInProgress(d, t, s, base, k, l))
  }

  ghost predicate LaneInProgress(d: Direction, t: Tracker, s: seq<Byte>, base: nat, k: nat, l: nat)
    requires l < LANES && |s| == base + k * LANES
  {
    && (forall j :: 0 <= j < k ==> !Better(d, s[At(base, j, l)], t.newValues[l]))
    && if t.newOffsets[l] == 0 then t.newValues[l] == t.vectorBest
       else
         && t.newOffsets[l] <= k
         && Better(d, t.newValues[l], t.vectorBest)
         && ReachedFirst(d, s, base, t.newOffsets[l], l, t.newValues[l])
  }

  // The offset-th vector of the block at base is the first one whose lane l reaches the value.
  ghost predicate ReachedFirst(d: Direction, s: seq<Byte>, base: nat, offset: int, l: nat, value: Byte) {
    && 1 <= offset
    && At(base, offset - 1, l) < |s|
    && s[At(base, offset - 1, l)] == value
    && (forall j :: 0 <= j < offset - 1 ==> Better(d, value, s[At(base, j, l)]))
  }

  // Everything about the n elements of finished rows and blocks that came by vector. laneBlock[l] is the
  // block in which lane l was last updated.
  ghost predicate BlocksFinished(d: Direction, t: Tracker, laneBlock: seq<nat>,
                                 s: seq<Byte>, via: seq<bool>, n: nat)
  {
    && n <= |s| && |via| == |s| && |laneBlock| == LANES
    && (forall q :: 0 <= q < n && via[q] ==> !Better(d, s[q], t.vectorBest))
    && (forall l :: 0 <= l < LANES ==> LaneFinished(d, t, laneBlock[l], s, via, n, l))
    && (t.vectorBest != Worst(d) ==> exists first :: IsFirstByVector(d, t, s, via, n, first))
  }

  // The block invariant of one lane: a lane that holds the overall best value was updated in the block at
  // blockIndex; a lane left from an older block holds a strictly worse value. Offsets of updated lanes
  // are within 1..254, so the marker 0 and the ignored value 255 are never real offsets.
  ghost predicate LaneFinished(d: Direction, t: Tracker, block: nat,
                               s: seq<Byte>, via: seq<bool>, n: nat, l: nat)
    requires l < LANES && n <= |s| == |via|
  {
    && !Better(d, t.values[l], t.vectorBest)
    && t.offsets[l] <= MAX_VECTORS_PER_BLOCK
    && (t.offsets[l] == 0 ==> t.values[l] == Worst(d))
    && (t.offsets[l] != 0 ==>
          && At(block, t.offsets[l] - 1, l) < n
          && via[At(block, t.offsets[l] - 1, l)]
          && Better(d, t.values[l], Worst(d))
          && ReachedFirst(d, s, block, t.offsets[l], l, t.values[l])
          && (t.values[l] == t.vectorBest ==> block == t.blockIndex)
          && (block != t.blockIndex ==> Better(d, t.vectorBest, t.values[l])))
  }

  // first is the index of the first element by vector that equals the overall best value, and the lane it
  // belongs to remembers it.
  ghost predicate IsFirstByVector(d: Direction, t: Tracker, s: seq<Byte>, via: seq<bool>, n: nat, first: nat)
    requires n <= |s| == |via|
  {
    && t.blockIndex <= first < n && via[first] && s[first] == t.vectorBest
    && (forall q :: 0 <= q < first && via[q] ==> Better(d, t.vectorBest, s[q]))
    && var l := (first - t.blockIndex) % LANES;
       t.values[l] == t.vectorBest && t.offsets[l] != 0 && At(t.blockIndex, t.offsets[l] - 1, l) == first
  }

  ghost predicate ScalarsSeen(d: Direction, t: Tracker, s: seq<Byte>, via: seq<bool>) {
    && |via| == |s|
    && (forall q :: 0 <= q < |s| && !via[q] ==> !Better(d, s[q], t.scalarBest))
    && (t.scalarBest == Worst(d) ==> t.scalarIndex == 0)
    && (t.scalarBest != Worst(d) ==>
          && t.scalarIndex < |s| && !via[t.scalarIndex] && s[t.scalarIndex] == t.scalarBest
          && (forall q :: 0 <= q < t.scalarIndex && !via[q] ==> Better(d, t.scalarBest, s[q])))
  }

  ghost predicate Tracks(d: Direction, t: Tracker, laneBlock: seq<nat>,
                         s: seq<Byte>, via: seq<bool>, base: nat, k: nat)
  {
    && |via| == |s| == base + k * LANES
    && (forall q :: base <= q < |s| ==> via[q])
    && BlockInProgress(d, t, s, base, k)
    && BlocksFinished(d, t, laneBlock, s, via, base)
    && ScalarsSeen(d, t, s, via)
  }

  // --- Each step keeps the meaning --------------------------------------------------------------

  lemma LaneVectorStep(d: Direction, t: Tracker, s: seq<Byte>, base: nat, k: nat, src: Vector, l: nat)
    requires k < MAX_VECTORS_PER_BLOCK && l < LANES
    requires |s| == base + k * LANES && LaneInProgress(d, t, s, base, k, l)
    ensures LaneInProgress(d, TrackVector(d, t, Dup(k + 1), src), s + src, base, k + 1, l)
  {
    var s' := s + src;
    assert s'[At(base, k, l)] == src[l];
    assert forall j :: 0 <= j < k ==> s'[At(base, j, l)] == s[At(base, j, l)];
  }

  // Consuming more elements does not disturb what is known about finished blocks.
  lemma FinishedBlocksPersist(d: Direction, t: Tracker, t': Tracker, laneBlock: seq<nat>,
                              s: seq<Byte>, via: seq<bool>, n: nat, s': seq<Byte>, via': seq<bool>, n': nat)
    requires BlocksFinished(d, t, laneBlock, s, via, n)
    requires t' == t.(newValues := t'.newValues, newOffsets := t'.newOffsets,
                      scalarBest := t'.scalarBest, scalarIndex := t'.scalarIndex)
    requires s <= s' && via <= via' && |via'| == |s'| && n <= n' <= |s'|
    requires forall q :: n <= q < n' ==> !via'[q]
    ensures BlocksFinished(d, t', laneBlock, s', via', n')
  {
    forall l | 0 <= l < LANES
      ensures LaneFinished(d, t', laneBlock[l], s', via', n', l)
    {
      assert LaneFinished(d, t, laneBlock[l], s, via, n, l);
    }
    if t.vectorBest != Worst(d) {
      var first :| IsFirstByVector(d, t, s, via, n, first);
      assert IsFirstByVector(d, t', s', via', n', first);
    }
  }

  lemma VectorStep(d: Direction, t: Tracker, laneBlock: seq<nat>, s: seq<Byte>, via: seq<bool>,
                   base: nat, k: nat, src: Vector)
    requires k < MAX_VECTORS_PER_BLOCK && Tracks(d, t, laneBlock, s, via, base, k)
    ensures Tracks(d, TrackVector(d, t, Dup(k + 1), src), laneBlock, s + src, via + seq(LANES, _ => true), base, k + 1)
  {
    var t', s', via', k' := TrackVector(d, t, Dup(k + 1), src), s + src, via + seq(LANES, _ => true), k + 1;
    forall l | 0 <= l < LANES
      ensures LaneInProgress(d, t', s', base, k', l)
    {
      LaneVectorStep(d, t, s, base, k, src, l);
    }
    FinishedBlocksPersist(d, t, t', laneBlock, s, via, base, s', via', base);
  }

  lemma ScalarStep(d: Direction, t: Tracker, laneBlock: seq<nat>, s: seq<Byte>, via: seq<bool>, src: Byte)
    requires Tracks(d, t, laneBlock, s, via, |s|, 0)
    ensures Tracks(d, TrackScalar(d, t, |s|, src), laneBlock, s + [src], via + [false], |s| + 1, 0)
  {
    var t', s', via' := TrackScalar(d, t, |s|, src), s + [src], via + [false];
    forall l | 0 <= l < LANES
      ensures LaneInProgress(d, t', s', |s'|, 0, l)
    {
      assert LaneInProgress(d, t, s, |s|, 0, l);
    }
    FinishedBlocksPersist(d, t, t', laneBlock, s, via, |s|, s', via', |s'|);
  }

  function LaneBlocks(t: Tracker, laneBlock: seq<nat>, base: nat): seq<nat>
    requires |laneBlock| == LANES
  {
    seq(LANES, l requires 0 <= l < LANES => if t.newOffsets[l] != 0 then base else laneBlock[l])
  }

  // A lane of the block in progress holds the best of what it read in this block and the best before it.
  lemma LaneOf(base: nat, k: nat, q: int) returns (j: int, l: nat)
    requires base <= q < base + k * LANES
    ensures 0 <= j < k && l < LANES && q == At(base, j, l) && l == (q - base) % LANES
  {
    j, l := (q - base) / LANES, (q - base) % LANES;
  }

  lemma BlockBest(d: Direction, t: Tracker, s: seq<Byte>, base: nat, k: nat)
    requires BlockInProgress(d, t, s, base, k)
    ensures forall q :: base <= q < |s| ==> !Better(d, s[q], Across(d, t.newValues))
    ensures !Better(d, t.vectorBest, Across(d, t.newValues))
    ensures HorizontalMaxU32(t.newOffsets) == 0 ==> Across(d, t.newValues) == t.vectorBest
    ensures HorizontalMaxU32(t.newOffsets) != 0 ==> Better(d, Across(d, t.newValues), t.vectorBest)
  {
    HorizontalMaxIsAnyLane(t.newOffsets);
    forall l | 0 <= l < LANES
      ensures t.newOffsets[l] == 0 ==> t.newValues[l] == t.vectorBest
      ensures t.newOffsets[l] != 0 ==> Better(d, t.newValues[l], t.vectorBest)
    {
      assert LaneInProgress(d, t, s, base, k, l);
    }
    forall q | base <= q < |s| ensures !Better(d, s[q], Across(d, t.newValues)) {
      var j, l := LaneOf(base, k, q);
      assert LaneInProgress(d, t, s, base, k, l);
      assert !Better(d, s[At(base, j, l)], t.newValues[l]);
    }
  }

  lemma LaneBlockStep(d: Direction, t: Tracker, laneBlock: seq<nat>, s: seq<Byte>, via: seq<bool>,
                      base: nat, k: nat, l: nat)
    requires k <= MAX_VECTORS_PER_BLOCK && Tracks(d, t, laneBlock, s, via, base, k) && l < LANES
    ensures LaneFinished(d, FinishBlock(d, t, base), LaneBlocks(t, laneBlock, base)[l], s, via, |s|, l)
  {
    BlockBest(d, t, s, base, k);
    assert LaneInProgress(d, t, s, base, k, l);
    assert LaneFinished(d, t, laneBlock[l], s, via, base, l);
    HorizontalMaxIsAnyLane(t.newOffsets);
  }

  // A block that updates some lane brings a strictly better value, and the lane it first occurs in knows where.
  lemma UpdatingBlock(d: Direction, t: Tracker, laneBlock: seq<nat>, s: seq<Byte>, via: seq<bool>, base: nat, k: nat)
    requires Tracks(d, t, laneBlock, s, via, base, k) && HorizontalMaxU32(t.newOffsets) != 0
    ensures exists first :: IsFirstByVector(d, FinishBlock(d, t, base), s, via, |s|, first)
  {
    var t' := FinishBlock(d, t, base);
    BlockBest(d, t, s, base, k);
    HorizontalMaxIsAnyLane(t.newOffsets);
    var w :| 0 <= w < LANES && t.newValues[w] == t'.vectorBest;
    assert LaneInProgress(d, t, s, base, k, w);
    var first := FirstByVectorInBlock(d, t, s, base, k, w);
    var j, l := LaneOf(base, k, first);
    assert LaneInProgress(d, t, s, base, k, l);
    assert IsFirstByVector(d, t', s, via, |s|, first);
  }

  lemma FirstByVectorInBlock(d: Direction, t: Tracker, s: seq<Byte>, base: nat, k: nat, w: nat) returns (first: int)
    requires BlockInProgress(d, t, s, base, k) && w < LANES && t.newOffsets[w] != 0
    requires t.newValues[w] == Across(d, t.newValues)
    ensures base <= first < |s| && s[first] == Across(d, t.newValues)
    ensures forall q :: base <= q < first ==> Better(d, s[first], s[q])
    ensures var l := (first - base) % LANES;
            t.newValues[l] == s[first] && t.newOffsets[l] != 0 && At(base, t.newOffsets[l] - 1, l) == first
  {
    BlockBest(d, t, s, base, k);
    assert LaneInProgress(d, t, s, base, k, w);
    var block := s[base..];
    var r := FirstBestExists(d, block);
    first := base + r;
    assert forall q :: base <= q < |s| ==> s[q] == block[q - base];
    var j, l := LaneOf(base, k, first);
    assert LaneInProgress(d, t, s, base, k, l);
    assert !Better(d, s[At(base, j, l)], t.newValues[l]);
  }

  lemma BlockStep(d: Direction, t: Tracker, laneBlock: seq<nat>, s: seq<Byte>, via: seq<bool>, base: nat, k: nat)
    requires k <= MAX_VECTORS_PER_BLOCK && Tracks(d, t, laneBlock, s, via, base, k)
    ensures Tracks(d, FinishBlock(d, t, base), LaneBlocks(t, laneBlock, base), s, via, |s|, 0)
  {
    var t' := FinishBlock(d, t, base);
    BlockBest(d, t, s, base, k);
    forall l | 0 <= l < LANES
      ensures LaneInProgress(d, t', s, |s|, 0, l)
      ensures LaneFinished(d, t', LaneBlocks(t, laneBlock, base)[l], s, via, |s|, l)
    {
      LaneBlockStep(d, t, laneBlock, s, via, base, k, l);
    }
    if HorizontalMaxU32(t.newOffsets) != 0 {
      UpdatingBlock(d, t, laneBlock, s, via, base, k);
    } else if t.vectorBest != Worst(d) {
      HorizontalMaxIsAnyLane(t.newOffsets);
      var first :| IsFirstByVector(d, t, s, via, base, first);
      assert IsFirstByVector(d, t', s, via, |s|, first);
    }
  }

  // The index reconstructed from offsets, block base and lane is the first occurrence of the best element.
  lemma BestIndexIsFirstBest(d: Direction, t: Tracker, laneBlock: seq<nat>, s: seq<Byte>, via: seq<bool>)
    requires s != [] && Tracks(d, t, laneBlock, s, via, |s|, 0)
    ensures IsFirstBest(d, s, BestIndex(d, t))
  {
    forall l | 0 <= l < LANES ensures t.newValues[l] == t.vectorBest {
      assert LaneInProgress(d, t, s, |s|, 0, l);
    }
    if t.vectorBest == Worst(d) {
      NothingBetterByVector(d, t, laneBlock, s, via);
    } else {
      var first :| IsFirstByVector(d, t, s, via, |s|, first);
      VectorIndex(d, t, laneBlock, s, via, first);
    }
  }

  lemma NothingBetterByVector(d: Direction, t: Tracker, laneBlock: seq<nat>, s: seq<Byte>, via: seq<bool>)
    requires s != [] && Tracks(d, t, laneBlock, s, via, |s|, 0) && t.vectorBest == Worst(d)
    requires t.newValues == Dup(t.vectorBest)
    ensures IsFirstBest(d, s, BestIndex(d, t))
  {
    var selected := SelectedOffsets(d, t);
    forall l | 0 <= l < LANES ensures selected[l] == 0 {
      assert LaneFinished(d, t, laneBlock[l], s, via, |s|, l);
    }
    assert BestIndex(d, t) == t.scalarIndex;
  }

  lemma VectorIndex(d: Direction, t: Tracker, laneBlock: seq<nat>, s: seq<Byte>, via: seq<bool>, first: nat)
    requires Tracks(d, t, laneBlock, s, via, |s|, 0) && t.vectorBest != Worst(d)
    requires t.newValues == Dup(t.vectorBest) && IsFirstByVector(d, t, s, via, |s|, first)
    ensures var selected := SelectedOffsets(d, t);
            var earliest := Across(Smallest, selected);
            && earliest != 0
            && t.blockIndex + (earliest - 1) * LANES + LaneOfFirstSmallest(selected, earliest) == first
  {
    var selected := SelectedOffsets(d, t);
    var earliest := Across(Smallest, selected);
    var first' := (first - t.blockIndex) % LANES;
    forall l | 0 <= l < LANES
      ensures selected[l] == 255 || (selected[l] != 0 && At(t.blockIndex, selected[l] - 1, l) >= first)
    {
      assert LaneFinished(d, t, laneBlock[l], s, via, |s|, l);
    }
    assert LaneFinished(d, t, laneBlock[first'], s, via, |s|, first');
    FirstSmallestLane(selected, earliest, first');
  }

  // --- The operation ----------------------------------------------------------------------------

  /** A tracker together with the history its fields are about. */
  datatype Log = Log(d: Direction, t: Tracker, laneBlock: seq<nat>,
                     consumed: seq<Byte>, viaVector: seq<bool>, base: nat, pending: nat)
  {
    ghost predicate Holds() {
      Tracks(d, t, laneBlock, consumed, viaVector, base, pending)
    }
  }

  type TrackedLog = g: Log | g.Holds() ghost witness Start(Smallest)

  function Start(d: Direction): Log {
    Log(d, Fresh(d), seq(LANES, _ => 0), [], [], 0, 0)
  }

  lemma StartHolds(d: Direction)
    ensures Start(d).Holds()
  {
  }

  lemma LogVector(g: TrackedLog, src: Vector) returns (g': TrackedLog)
    requires g.pending < MAX_VECTORS_PER_BLOCK
    ensures g' == g.(t := TrackVector(g.d, g.t, Dup(g.pending + 1), src), consumed := g.consumed + src,
                     viaVector := g.viaVector + seq(LANES, _ => true), pending := g.pending + 1)
  {
    VectorStep(g.d, g.t, g.laneBlock, g.consumed, g.viaVector, g.base, g.pending, src);
    g' := g.(t := TrackVector(g.d, g.t, Dup(g.pending + 1), src), consumed := g.consumed + src,
             viaVector := g.viaVector + seq(LANES, _ => true), pending := g.pending + 1);
  }

  lemma LogScalar(g: TrackedLog, src: Byte) returns (g': TrackedLog)
    requires g.pending == 0
    ensures g' == g.(t := TrackScalar(g.d, g.t, g.base, src), consumed := g.consumed + [src],
                     viaVector := g.viaVector + [false], base := g.base + 1)
  {
    ScalarStep(g.d, g.t, g.laneBlock, g.consumed, g.viaVector, src);
    g' := g.(t := TrackScalar(g.d, g.t, g.base, src), consumed := g.consumed + [src],
             viaVector := g.viaVector + [false], base := g.base + 1);
  }

  lemma LogBlock(g: TrackedLog) returns (g': TrackedLog)
    requires g.pending <= MAX_VECTORS_PER_BLOCK
    ensures g' == g.(t := FinishBlock(g.d, g.t, g.base), laneBlock := g'.laneBlock,
                     base := g.base + g.pending * LANES, pending := 0)
  {
    BlockStep(g.d, g.t, g.laneBlock, g.consumed, g.viaVector, g.base, g.pending);
    g' := g.(t := FinishBlock(g.d, g.t, g.base), laneBlock := LaneBlocks(g.t, g.laneBlock, g.base),
             base := g.base + g.pending * LANES, pending := 0);
  }

  class MinMaxLoc {
    var min: Tracker
    var max: Tracker
    var runningOffset: Vector
    var runningIndex: nat
    ghost var consumed: seq<Byte>
    ghost var pending: nat  // vectors consumed since the last finished block
    ghost var minLog: TrackedLog
    ghost var maxLog: TrackedLog

    ghost predicate Valid()
      reads this
    {
      && pending <= MAX_VECTORS_PER_BLOCK
      && runningOffset == Dup(pending + 1)
      && minLog == Log(Smallest, min, minLog.laneBlock, consumed, minLog.viaVector, runningIndex, pending)
      && maxLog == Log(Largest, max, maxLog.laneBlock, consumed, maxLog.viaVector, runningIndex, pending)
    }

    constructor ()
      ensures Valid() && consumed == [] && pending == 0
    {
      min, max := Fresh(Smallest), Fresh(Largest);
      runningOffset, runningIndex := Dup(1), 0;
      consumed, pending := [], 0;
      StartHolds(Smallest);
      StartHolds(Largest);
      minLog, maxLog := Start(Smallest), Start(Largest);
    }

    method VectorPath(src: Vector)
      requires Valid() && pending < MAX_VECTORS_PER_BLOCK
      modifies this
      ensures Valid() && consumed == old(consumed) + src && pending == old(pending) + 1
    {
      hide Tracks, TrackVector;
      minLog := LogVector(minLog, src);
      maxLog := LogVector(maxLog, src);
      min := TrackVector(Smallest, min, runningOffset, src);
      max := TrackVector(Largest, max, runningOffset, src);
      runningOffset := AddLanes(runningOffset, Dup(1));
      consumed, pending := consumed + src, pending + 1;
    }

    method ScalarPath(src: Byte)
      requires Valid() && pending == 0
      modifies this
      ensures Valid() && consumed == old(consumed) + [src] && pending == 0
    {
      hide Tracks, TrackScalar;
      minLog := LogScalar(minLog, src);
      maxLog := LogScalar(maxLog, src);
      min := TrackScalar(Smallest, min, runningIndex, src);
      max := TrackScalar(Largest, max, runningIndex, src);
      runningIndex := runningIndex + 1;
      consumed := consumed + [src];
    }

    method OnBlockFinished(vectorsInBlock: nat)
      requires Valid() && vectorsInBlock == pending
      modifies this
      ensures Valid() && consumed == old(consumed) && pending == 0
    {
      hide Tracks, FinishBlock;
      minLog := LogBlock(minLog);
      maxLog := LogBlock(maxLog);
      min := FinishBlock(Smallest, min, runningIndex);
      max := FinishBlock(Largest, max, runningIndex);
      runningIndex := runningIndex + vectorsInBlock * LANES;
      runningOffset := Dup(1);
      pending := 0;
    }

    method MinIndex() returns (index: nat)
      requires Valid() && pending == 0 && consumed != []
      ensures IsFirstBest(Smallest, consumed, index)
      ensures index < |consumed|
      ensures forall i :: 0 <= i < |consumed| ==>
                consumed[index] <= consumed[i] && (i < index ==> consumed[index] < consumed[i])
    {
      BestIndexIsFirstBest(Smallest, min, minLog.laneBlock, consumed, minLog.viaVector);
      index := BestIndex(Smallest, min);
    }

    method MaxIndex() returns (index: nat)
      requires Valid() && pending == 0 && consumed != []
      ensures IsFirstBest(Largest, consumed, index)
      ensures index < |consumed|
      ensures forall i :: 0 <= i < |consumed| ==>
                consumed[i] <= consumed[index] && (i < index ==> consumed[i] < consumed[index])
    {
      BestIndexIsFirstBest(Largest, max, maxLog.laneBlock, consumed, maxLog.viaVector);
      index := BestIndex(Largest, max);
    }
  }
}
