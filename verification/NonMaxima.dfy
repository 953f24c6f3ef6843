/** Non-maxima suppression and high thresholding: eight pixels at a time, by direction. */
module NonMaxima {
  import opened Basics
  import opened Images
  import opened Buffers
  import opened Gradients
  import opened DirectionalMasking
  import Hysteresis

  // --- One lane ---------------------------------------------------------------------------------

  // A comparison lane, as a signed 16-bit all-ones or zero.
  function Flag(b: bool): int { if b then -1 else 0 }

  // vandq of a lane with two comparison lanes
  function Keep(x: Int16, a: int, b: int): Int16 { if a == -1 && b == -1 then x else 0 }

  // From the neighbours to the class byte: 0xFF strong, 1 weak, 0 none.
  function SuppressLane(current: Int16, before: Int16, after: Int16, high: Int16): Byte {
    var nonMax := Keep(current, Flag(current > before), Flag(current >= after));
    var isStrong := if nonMax > high then 0xFFFF else 0;
    var isWeak := (if nonMax > 0 then 0xFFFF else 0) / 0x8000;  // shift right by 15
    (if isStrong != 0 then isStrong else isWeak) % 256          // or, then narrow
  }

  // The scalar rule: a pixel survives if it exceeds the neighbour before it, and is at least (or, where asked,
  // also exceeds) the neighbour after it; survivors are strong above the threshold and weak above zero.
  function EdgeRule(current: int, before: int, after: int, strictAfter: bool, high: int): Byte {
    var survives := current > before && if strictAfter then current > after else current >= after;
    var magnitude := if survives then current else 0;
    if magnitude > high then Hysteresis.STRONG else if magnitude > 0 then Hysteresis.WEAK else 0
  }

  // A saturating increment stands for the strict comparison except at the largest 16-bit value.
  lemma IncrementIsStrict(current: Int16, before: Int16, after: Int16, strictAfter: bool, high: Int16)
    ensures SuppressLane(current, before, SaturatingAdd(after, if strictAfter then 1 else 0), high)
            == EdgeRule(current, before, after, strictAfter, high)
       <==> !(strictAfter && before < current == after == MAX_INT16 && high >= 0)
  {
  }

  // Two equal largest magnitudes on a diagonal: the lane keeps a pixel that the strict rule drops.
  lemma SaturatedPeaks()
    ensures SuppressLane(MAX_INT16, 0, SaturatingAdd(MAX_INT16, 1), 100) == Hysteresis.STRONG
    ensures EdgeRule(MAX_INT16, 0, MAX_INT16, true, 100) == 0
  {
  }

  // Below zero, the threshold makes a pixel without magnitude strong, for the lanes and for the rule.
  lemma NegativeThreshold(before: Int16, after: Int16, strictAfter: bool, high: Int16)
    requires high < 0
    ensures SuppressLane(0, before, after, high) == EdgeRule(0, before, after, strictAfter, high) == Hysteresis.STRONG
  {
  }

  // --- One image --------------------------------------------------------------------------------

  /** The inputs: gradients without padding, and magnitudes padded by eight columns at both sides and one row
      at top and bottom. */
  datatype Planes = Planes(gx: seq<Int16>, gy: seq<Int16>, magnitudes: seq<Int16>, width: nat, height: nat) {
    predicate Valid() {
      && |gx| == |gy| == RowStart(0, width, height)
      && |magnitudes| == RowStart(0, width + 16, height + 2)
    }

    // The magnitude at a padded position.
    function Padded(y: nat, x: nat): Int16
      requires Valid() && y < height + 2 && x < width + 16
    {
      InPlane(y, x, width + 16, height + 2);
      magnitudes[PixelAt(0, width + 16, y, x)]
    }

    // The magnitude of a pixel.
    function Magnitude(y: nat, x: nat): Int16
      requires Valid() && y < height && x < width
    {
      Padded(y + 1, x + 8)
    }

    function Direction(y: nat, x: nat): (c: Int16)
      requires Valid() && y < height && x < width
      ensures 0 <= c <= 5
    {
      InPlane(y, x, width, height);
      var at := PixelAt(0, width, y, x);
      ClassificationIsExact(gx[at], gy[at]);
      Classify(gx[at], gy[at])
    }

    // The two neighbours of a pixel along its gradient direction.
    function NeighbourBefore(y: nat, x: nat, conformOpenCv: bool): Int16
      requires Valid() && y < height && x < width
    {
      var c := Direction(y, x);
      if IsHorizontal(c) then Padded(y + 1, x + 7) else Padded(y, x + 8 + PrevShift(c, conformOpenCv))
    }

    function NeighbourAfter(y: nat, x: nat, conformOpenCv: bool): Int16
      requires Valid() && y < height && x < width
    {
      var c := Direction(y, x);
      if IsHorizontal(c) then Padded(y + 1, x + 9) else Padded(y + 2, x + 8 - PrevShift(c, conformOpenCv))
    }

    function IsStrictAfter(y: nat, x: nat, conformOpenCv: bool): bool
      requires Valid() && y < height && x < width
    {
      conformOpenCv && IsDiagonal(Direction(y, x))
    }

    // The class that the vector path computes for a pixel.
    function ClassOf(y: nat, x: nat, conformOpenCv: bool, high: Int16): Byte
      requires Valid() && y < height && x < width
    {
      SuppressLane(Magnitude(y, x), NeighbourBefore(y, x, conformOpenCv),
                   SaturatingAdd(NeighbourAfter(y, x, conformOpenCv),
                                 if IsStrictAfter(y, x, conformOpenCv) then 1 else 0),
                   high)
    }

    // All eight magnitudes of the group at (y, x) are zero.
    predicate IsNullGroup(y: nat, x: nat)
      requires Valid() && y < height && x + 8 <= width
    {
      forall x' :: x <= x' < x + 8 ==> Magnitude(y, x') == 0
    }
  }

  // Which pixels are compared with the pixel whose gradients lie at a position: the ratio of the absolute gradients
  // decides between the row, the column and the diagonals, and the signs decide between the diagonals, one way in the
  // OpenCV setting and the other way in the other one.
  lemma NeighboursAre(p: Planes, y: nat, x: nat, conformOpenCv: bool, at: nat)
    requires p.Valid() && y < p.height && x < p.width && at == y * p.width + x
    requires at < |p.gx| ==> -27145 <= p.gx[at] <= 27145 && at < |p.gy| && -27145 <= p.gy[at] <= 27145
    ensures at < |p.gx| == |p.gy|
    ensures var gx, gy := p.gx[at], p.gy[at];
            var absGx: int := if gx < 0 then -gx else gx;
            var absGy: int := if gy < 0 then -gy else gy;
            var before, after := p.NeighbourBefore(y, x, conformOpenCv), p.NeighbourAfter(y, x, conformOpenCv);
            if 32768 * absGy < 13573 * absGx then
              before == p.Padded(y + 1, x + 7) && after == p.Padded(y + 1, x + 9)
              && !p.IsStrictAfter(y, x, conformOpenCv)
            else if 32768 * absGy > 79109 * absGx then
              before == p.Padded(y, x + 8) && after == p.Padded(y + 2, x + 8) && !p.IsStrictAfter(y, x, conformOpenCv)
            else if conformOpenCv == ((gx < 0) == (gy < 0)) then
              before == p.Padded(y, x + 7) && after == p.Padded(y + 2, x + 9)
              && p.IsStrictAfter(y, x, conformOpenCv) == conformOpenCv
            else
              before == p.Padded(y, x + 9) && after == p.Padded(y + 2, x + 7)
              && p.IsStrictAfter(y, x, conformOpenCv) == conformOpenCv
  {
    PixelAtIs(0, p.width, y, x);
    InPlane(y, x, p.width, p.height);
    ClassificationIsExact(p.gx[at], p.gy[at]);
    hide Classify, Planes.Padded;
  }

  // The scalar rule on a pixel of the image.
  function RuleAt(p: Planes, y: nat, x: nat, conformOpenCv: bool, high: Int16): Byte
    requires p.Valid() && y < p.height && x < p.width
  {
    EdgeRule(p.Magnitude(y, x), p.NeighbourBefore(y, x, conformOpenCv), p.NeighbourAfter(y, x, conformOpenCv),
             p.IsStrictAfter(y, x, conformOpenCv), high)
  }

  // The shortcut for groups without magnitude agrees with the rule exactly for thresholds that are not negative.
  lemma ShortcutAgrees(p: Planes, y: nat, x: nat, x': nat, conformOpenCv: bool, high: Int16)
    requires p.Valid() && y < p.height && x + 8 <= p.width && x <= x' < x + 8 && p.IsNullGroup(y, x)
    ensures RuleAt(p, y, x', conformOpenCv, high) == 0 <==> high >= 0
    ensures p.ClassOf(y, x', conformOpenCv, high) == RuleAt(p, y, x', conformOpenCv, high)
  {
    hide Classify;
    assert p.Magnitude(y, x') == 0;
    IncrementIsStrict(p.Magnitude(y, x'), p.NeighbourBefore(y, x', conformOpenCv),
                      p.NeighbourAfter(y, x', conformOpenCv), p.IsStrictAfter(y, x', conformOpenCv), high);
  }

  // --- One group of eight lanes -----------------------------------------------------------------

  function Window(p: Planes, y: nat, x: nat): Row24
    requires p.Valid() && y < p.height + 2 && x + 8 <= p.width
  {
    InPlane(y, x + 23, p.width + 16, p.height + 2);
    p.magnitudes[PixelAt(0, p.width + 16, y, x)..PixelAt(0, p.width + 16, y, x) + 24]
  }

  function Directions(p: Planes, y: nat, x: nat): (d: Vec8)
    requires p.Valid() && y < p.height && x + 8 <= p.width
    ensures forall k {:trigger d[k]} :: 0 <= k < 8 ==> d[k] == p.Direction(y, x + k)
  {
    [p.Direction(y, x), p.Direction(y, x + 1), p.Direction(y, x + 2), p.Direction(y, x + 3),
     p.Direction(y, x + 4), p.Direction(y, x + 5), p.Direction(y, x + 6), p.Direction(y, x + 7)]
  }

  function GroupClasses(p: Planes, y: nat, x: nat, conformOpenCv: bool, high: Int16): (classes: seq<Byte>)
    requires p.Valid() && y < p.height && x + 8 <= p.width
    ensures |classes| == 8
  {
    var m := Mask(p, y, x, conformOpenCv);
    seq(8, k requires 0 <= k < 8 => SuppressLane(m.current[k], m.before[k], m.after[k], high))
  }

  // A window starting eight columns to the left holds the padded row.
  lemma WindowIsPadded(p: Planes, y: nat, x: nat, i: nat)
    requires p.Valid() && y < p.height + 2 && x + 8 <= p.width && i < 24
    ensures Window(p, y, x)[i] == p.Padded(y, x + i)
  {
    InPlane(y, x + 23, p.width + 16, p.height + 2);
  }

  function Mask(p: Planes, y: nat, x: nat, conformOpenCv: bool): Masked
    requires p.Valid() && y < p.height && x + 8 <= p.width
  {
    MaskByDirection(Window(p, y, x), Window(p, y + 1, x), Window(p, y + 2, x), Directions(p, y, x), conformOpenCv)
  }

  lemma MaskBefore(p: Planes, y: nat, x: nat, conformOpenCv: bool, k: nat)
    requires p.Valid() && y < p.height && x + 8 <= p.width && k < 8
    ensures Mask(p, y, x, conformOpenCv).before[k] == p.NeighbourBefore(y, x + k, conformOpenCv)
  {
    hide Classify, Window, MaskByDirection, PrevShift, Planes.Padded, Planes.Direction, Directions;
    var c := Directions(p, y, x)[k];
    ShiftIsSmall(c, conformOpenCv);
    BeforeIsSelected(Window(p, y, x), Window(p, y + 1, x), Window(p, y + 2, x), Directions(p, y, x), conformOpenCv, k);
    WindowIsPadded(p, y + 1, x, 7 + k);
    WindowIsPadded(p, y, x, 8 + k + PrevShift(c, conformOpenCv));
  }

  lemma MaskAfter(p: Planes, y: nat, x: nat, conformOpenCv: bool, k: nat)
    requires p.Valid() && y < p.height && x + 8 <= p.width && k < 8
    ensures Mask(p, y, x, conformOpenCv).after[k]
         == SaturatingAdd(p.NeighbourAfter(y, x + k, conformOpenCv),
                          if p.IsStrictAfter(y, x + k, conformOpenCv) then 1 else 0)
  {
    hide Classify, Window, MaskByDirection, PrevShift, Planes.Padded, Planes.Direction, Directions, SaturatingAdd;
    var c := Directions(p, y, x)[k];
    ShiftIsSmall(c, conformOpenCv);
    AfterIsSelected(Window(p, y, x), Window(p, y + 1, x), Window(p, y + 2, x), Directions(p, y, x), conformOpenCv, k);
    WindowIsPadded(p, y + 1, x, 9 + k);
    WindowIsPadded(p, y + 2, x, 8 + k - PrevShift(c, conformOpenCv));
  }

  lemma MaskCurrent(p: Planes, y: nat, x: nat, conformOpenCv: bool, k: nat)
    requires p.Valid() && y < p.height && x + 8 <= p.width && k < 8
    ensures Mask(p, y, x, conformOpenCv).current[k] == p.Magnitude(y, x + k)
  {
    hide Classify, Window, Planes.Padded, Planes.Direction, Directions, LookupOr, Lookup;
    WindowIsPadded(p, y + 1, x, 8 + k);
  }

  // Lane by lane, the group computes the class of its pixels.
  lemma GroupComputesClasses(p: Planes, y: nat, x: nat, conformOpenCv: bool, high: Int16, k: nat)
    requires p.Valid() && y < p.height && x + 8 <= p.width && k < 8
    ensures GroupClasses(p, y, x, conformOpenCv, high)[k] == p.ClassOf(y, x + k, conformOpenCv, high)
  {
    hide SuppressLane, Mask, SaturatingAdd, Planes.NeighbourBefore, Planes.NeighbourAfter, Planes.Magnitude,
         Planes.IsStrictAfter;
    MaskBefore(p, y, x, conformOpenCv, k);
    MaskCurrent(p, y, x, conformOpenCv, k);
    MaskAfter(p, y, x, conformOpenCv, k);
  }

  // --- The pass over the image ------------------------------------------------------------------

  // Where the class of pixel (y, x) goes: the hysteresis buffer has one cell of margin on every side.
  function Position(width: nat, y: nat, x: nat): nat {
    PixelAt(0, width + 2, y + 1, x + 1)
  }

  // What the pass writes for a pixel: groups without magnitude are cleared without looking further.
  function Suppressed(p: Planes, y: nat, x: nat, conformOpenCv: bool, high: Int16): Byte
    requires p.Valid() && p.width % 8 == 0 && y < p.height && x < p.width
  {
    if p.IsNullGroup(y, x - x % 8) then 0 else p.ClassOf(y, x, conformOpenCv, high)
  }

  // The pass computes the scalar rule, except where a saturating increment meets the largest magnitude and, for
  // negative thresholds, except in groups without magnitude.
  lemma SuppressedIsRule(p: Planes, y: nat, x: nat, conformOpenCv: bool, high: Int16)
    requires p.Valid() && p.width % 8 == 0 && y < p.height && x < p.width
    ensures Suppressed(p, y, x, conformOpenCv, high) == RuleAt(p, y, x, conformOpenCv, high)
       <==> if high < 0 then !p.IsNullGroup(y, x - x % 8)
            else !(p.IsStrictAfter(y, x, conformOpenCv)
                   && p.NeighbourBefore(y, x, conformOpenCv) < p.Magnitude(y, x)
                   && p.Magnitude(y, x) == p.NeighbourAfter(y, x, conformOpenCv) == MAX_INT16)
  {
    hide Planes.NeighbourBefore, Planes.NeighbourAfter, Planes.IsStrictAfter;
    IncrementIsStrict(p.Magnitude(y, x), p.NeighbourBefore(y, x, conformOpenCv),
                      p.NeighbourAfter(y, x, conformOpenCv), p.IsStrictAfter(y, x, conformOpenCv), high);
    if p.IsNullGroup(y, x - x % 8) {
      assert p.Magnitude(y, x) == 0;
      if high < 0 {
        NegativeThreshold(p.NeighbourBefore(y, x, conformOpenCv), p.NeighbourAfter(y, x, conformOpenCv),
                          p.IsStrictAfter(y, x, conformOpenCv), high);
      }
    }
  }

  // A pixel without magnitude is no edge.
  lemma NoMagnitudeNoEdge(p: Planes, y: nat, x: nat, conformOpenCv: bool, high: Int16)
    requires p.Valid() && p.width % 8 == 0 && y < p.height && x < p.width && high >= 0 && p.Magnitude(y, x) == 0
    ensures Suppressed(p, y, x, conformOpenCv, high) == 0
  {
  }

  // The classes to write for one group.
  function GroupResult(p: Planes, y: nat, x: nat, conformOpenCv: bool, high: Int16): (classes: seq<Byte>)
    requires p.Valid() && y < p.height && x + 8 <= p.width
    ensures |classes| == 8
  {
    if p.IsNullGroup(y, x) then seq(8, _ => 0) else GroupClasses(p, y, x, conformOpenCv, high)
  }

  lemma GroupResultIsSuppressed(p: Planes, y: nat, x: nat, conformOpenCv: bool, high: Int16, k: nat)
    requires p.Valid() && p.width % 8 == 0 && y < p.height && x + 8 <= p.width && x % 8 == 0 && k < 8
    ensures GroupResult(p, y, x, conformOpenCv, high)[k] == Suppressed(p, y, x + k, conformOpenCv, high)
  {
    hide Planes.ClassOf, GroupClasses, Planes.IsNullGroup;
    assert (x + k) - (x + k) % 8 == x;
    GroupComputesClasses(p, y, x, conformOpenCv, high, k);
  }

  // vaddvq_s16 of the strong lanes' position bits.
  function StrongBits(classes: seq<Byte>): nat {
    if classes == [] then 0 else (if classes[0] == Hysteresis.STRONG then 1 else 0) + 2 * StrongBits(classes[1..])
  }

  // The cells of the strong lanes, in order.
  function StrongPositions(classes: seq<Byte>, position: nat): seq<nat> {
    if classes == [] then []
    else
      var n := |classes| - 1;
      StrongPositions(classes[..n], position) + if classes[n] == Hysteresis.STRONG then [position + n] else []
  }

  lemma {:induction false} NoStrongBits(classes: seq<Byte>)
    ensures StrongBits(classes) == 0 <==> forall i :: 0 <= i < |classes| ==> classes[i] != Hysteresis.STRONG
  {
    if classes != [] {
      NoStrongBits(classes[1..]);
      assert forall i :: 1 <= i < |classes| ==> classes[i] == classes[1..][i - 1];
    }
  }

  lemma {:induction false} NoMoreStrongPositions(classes: seq<Byte>, position: nat, n: nat)
    requires n <= |classes| && forall i :: n <= i < |classes| ==> classes[i] != Hysteresis.STRONG
    ensures StrongPositions(classes, position) == StrongPositions(classes[..n], position)
  {
    if n < |classes| {
      NoMoreStrongPositions(classes[..|classes| - 1], position, n);
      assert classes[..|classes| - 1][..n] == classes[..n];
    } else {
      assert classes[..n] == classes;
    }
  }

  // Pushes the cell of every strong lane once, in order.
  method PushStrongLanes(classes: seq<Byte>, position: nat, stack: seq<nat>) returns (stack': seq<nat>)
    ensures stack' == stack + StrongPositions(classes, position)
  {
    stack' := stack;
    var strongEdges, column := StrongBits(classes), 0;
    assert classes[0..] == classes;
    while strongEdges != 0
      invariant 0 <= column <= |classes| && strongEdges == StrongBits(classes[column..])
      invariant stack' == stack + StrongPositions(classes[..column], position)
      decreases |classes| - column
    {
      assert classes[column..][1..] == classes[column + 1..];
      assert classes[..column + 1][..column] == classes[..column];
      if strongEdges % 2 == 1 {
        stack' := stack' + [position + column];
      }
      strongEdges := strongEdges / 2;
      column := column + 1;
    }
    NoStrongBits(classes[column..]);
    forall i | column <= i < |classes| ensures classes[i] != Hysteresis.STRONG {
      assert classes[i] == classes[column..][i - column];
    }
    NoMoreStrongPositions(classes, position, column);
  }

  // Every found cell is a strong lane, in order, and every strong lane is found.
  ghost predicate FindsStrong(classes: seq<Byte>, position: nat, found: seq<nat>) {
    && (forall i :: 0 <= i < |found| ==> IsStrongCell(classes, position, found[i]))
    && (forall i, j :: 0 <= i < j < |found| ==> found[i] < found[j])
    && (forall q :: IsStrongCell(classes, position, q) ==> q in found)
  }

  predicate IsStrongCell(classes: seq<Byte>, position: nat, q: int) {
    position <= q < position + |classes| && classes[q - position] == Hysteresis.STRONG
  }

  lemma {:induction false} StrongPositionsAre(classes: seq<Byte>, position: nat)
    ensures FindsStrong(classes, position, StrongPositions(classes, position))
  {
    if classes != [] {
      var n := |classes| - 1;
      StrongPositionsAre(classes[..n], position);
      var front, found := StrongPositions(classes[..n], position), StrongPositions(classes, position);
      forall q ensures IsStrongCell(classes, position, q)
                       <==> (IsStrongCell(classes[..n], position, q)
                             || (q == position + n && classes[n] == Hysteresis.STRONG))
      {
      }
      forall i | 0 <= i < |found| ensures IsStrongCell(classes, position, found[i]) {
        if i < |front| { assert IsStrongCell(classes[..n], position, front[i]); }
      }
      forall i, j | 0 <= i < j < |found| ensures found[i] < found[j] {
        assert IsStrongCell(classes[..n], position, front[i]);
      }
      forall q | IsStrongCell(classes, position, q) ensures q in found {
        if IsStrongCell(classes[..n], position, q) { assert q in front; }
      }
    }
  }

  predicate OnMargin(width: nat, height: nat, y: nat, x: nat) {
    y < height + 2 && x < width + 2 && !IsInterior(width + 2, height + 2, Margin(1, 1, 1, 1), y, x)
  }

  // The margin of the hysteresis buffer is clear.
  ghost predicate MarginIsClear(img: seq<Byte>, width: nat, height: nat) {
    && |img| == RowStart(0, width + 2, height + 2)
    && forall y: nat, x: nat | OnMargin(width, height, y, x) ::
         PixelAt(0, width + 2, y, x) < |img| && img[PixelAt(0, width + 2, y, x)] == 0
  }

  // The pixels before (y, x) have their class, and the stack holds exactly the strong ones among them, in order.
  ghost predicate Progress(p: Planes, img: seq<Byte>, stack: seq<nat>, conformOpenCv: bool, high: Int16, y: nat, x: nat)
    requires p.Valid() && p.width % 8 == 0
  {
    && MarginIsClear(img, p.width, p.height)
    && (forall y': nat, x': nat | y' < p.height && x' < p.width && IsEarlier(y', x', y, x) ::
          && Position(p.width, y', x') < |img|
          && img[Position(p.width, y', x')] == Suppressed(p, y', x', conformOpenCv, high)
          && (img[Position(p.width, y', x')] == Hysteresis.STRONG ==> Position(p.width, y', x') in stack))
    && (forall i :: 0 <= i < |stack| ==>
          stack[i] < |img| && stack[i] < Position(p.width, y, x) && img[stack[i]] == Hysteresis.STRONG)
    && (forall i, j :: 0 <= i < j < |stack| ==> stack[i] < stack[j])
  }

  lemma InteriorPosition(width: nat, height: nat, y: nat, x: nat)
    requires y < height && x < width
    ensures Position(width, y, x) < RowStart(0, width + 2, height + 2)
  {
    Buffers.InPlane(y + 1, x + 1, width + 2, height + 2);
  }

  lemma GroupStep(p: Planes, img: seq<Byte>, stack: seq<nat>, conformOpenCv: bool, high: Int16, y: nat, x: nat,
                  img': seq<Byte>, classes: seq<Byte>)
    requires p.Valid() && p.width % 8 == 0 && y < p.height && x + 8 <= p.width && x % 8 == 0
    requires Progress(p, img, stack, conformOpenCv, high, y, x)
    requires classes == GroupResult(p, y, x, conformOpenCv, high) && |img'| == |img|
    requires var position := Position(p.width, y, x);
             forall i :: 0 <= i < |img| ==>
               img'[i] == if position <= i < position + 8 then classes[i - position] else img[i]
    ensures Progress(p, img', stack + StrongPositions(classes, Position(p.width, y, x)), conformOpenCv, high, y, x + 8)
  {
    hide Suppressed, GroupResult, RowStart, StrongPositions;
    var width, position := p.width, Position(p.width, y, x);
    var found := StrongPositions(classes, position);
    StrongPositionsAre(classes, position);
    InteriorPosition(width, p.height, y, x + 7);
    assert position + 7 == Position(width, y, x + 7);
    assert position + 8 == Position(width, y, x + 8);
    forall y': nat, x': nat | y' < p.height && x' < width && IsEarlier(y', x', y, x + 8)
      ensures Position(width, y', x') < |img'|
      ensures img'[Position(width, y', x')] == Suppressed(p, y', x', conformOpenCv, high)
      ensures img'[Position(width, y', x')] == Hysteresis.STRONG ==> Position(width, y', x') in stack + found
    {
      InteriorPosition(width, p.height, y', x');
      PositionsInOrder(width + 2, y' + 1, x' + 1, y + 1, x + 1);
      if !IsEarlier(y', x', y, x) {
        GroupResultIsSuppressed(p, y, x, conformOpenCv, high, x' - x);
        assert Position(width, y', x') == position + (x' - x);
      }
    }
    MarginKept(img, img', p.width, p.height, y, x);
  }

  lemma MarginKept(img: seq<Byte>, img': seq<Byte>, width: nat, height: nat, y: nat, x: nat)
    requires MarginIsClear(img, width, height) && |img'| == |img| && y < height && x + 8 <= width
    requires var position := Position(width, y, x);
             forall i :: 0 <= i < |img| && !(position <= i < position + 8) ==> img'[i] == img[i]
    ensures MarginIsClear(img', width, height)
  {
    hide RowStart;
    assert Position(width, y, x) + 7 == Position(width, y, x + 7);
    forall y': nat, x': nat | OnMargin(width, height, y', x')
      ensures PixelAt(0, width + 2, y', x') < |img'| && img'[PixelAt(0, width + 2, y', x')] == 0
    {
      PositionsInOrder(width + 2, y', x', y + 1, x + 1);
      PositionsInOrder(width + 2, y', x', y + 1, x + 8);
    }
  }

  lemma NextRow(p: Planes, img: seq<Byte>, stack: seq<nat>, conformOpenCv: bool, high: Int16, y: nat)
    requires p.Valid() && p.width % 8 == 0 && y < p.height
    requires Progress(p, img, stack, conformOpenCv, high, y, p.width)
    ensures Progress(p, img, stack, conformOpenCv, high, y + 1, 0)
  {
    hide Suppressed;
  }

  // vst1_u8
  method StoreGroup(dst: array<Byte>, position: nat, classes: seq<Byte>)
    requires |classes| == 8 && position + 8 <= dst.Length
    modifies dst
    ensures forall i :: 0 <= i < dst.Length ==>
              dst[i] == if position <= i < position + 8 then classes[i - position] else old(dst[i])
  {
    forall k | 0 <= k < 8 {
      dst[position + k] := classes[k];
    }
  }

  // non_maxima_suppression_and_high_thresholding: every pixel gets its class, and the stack receives each strong
  // pixel exactly once.
  method SuppressNonMaxima(p: Planes, dst: array<Byte>, conformOpenCv: bool, high: Int16) returns (stack: seq<nat>)
    requires p.Valid() && p.width % 8 == 0
    requires MarginIsClear(dst[..], p.width, p.height)
    modifies dst
    ensures Progress(p, dst[..], stack, conformOpenCv, high, p.height, 0)
  {
    stack := [];
    for y := 0 to p.height
      invariant Progress(p, dst[..], stack, conformOpenCv, high, y, 0)
    {
      var maxIndex, x := (p.width / 8) * 8, 0;
      while x < maxIndex
        invariant 0 <= x <= maxIndex && x % 8 == 0
        invariant Progress(p, dst[..], stack, conformOpenCv, high, y, x)
      {
        stack := HandleGroup(p, dst, stack, conformOpenCv, high, y, x);
        x := x + 8;
      }
      NextRow(p, dst[..], stack, conformOpenCv, high, y);
    }
  }

  method HandleGroup(p: Planes, dst: array<Byte>, stack: seq<nat>, conformOpenCv: bool, high: Int16, y: nat, x: nat)
    returns (stack': seq<nat>)
    requires p.Valid() && p.width % 8 == 0 && y < p.height && x + 8 <= p.width && x % 8 == 0
    requires Progress(p, dst[..], stack, conformOpenCv, high, y, x)
    modifies dst
    ensures Progress(p, dst[..], stack', conformOpenCv, high, y, x + 8)
  {
    hide Suppressed, StrongPositions, RowStart, Planes.IsNullGroup, GroupResult, Planes.Valid;
    ghost var before := dst[..];
    var position, classes := Position(p.width, y, x), GroupResult(p, y, x, conformOpenCv, high);
    assert position + 8 <= dst.Length by { InteriorPosition(p.width, p.height, y, x + 7); }
    StoreGroup(dst, position, classes);
    GroupStep(p, before, stack, conformOpenCv, high, y, x, dst[..], classes);
    hide Progress;
    if p.IsNullGroup(y, x) {
      NothingStrong(p, y, x, conformOpenCv, high, position);
      stack' := stack;
    } else {
      stack' := PushStrongLanes(classes, position, stack);
    }
  }

  lemma NothingStrong(p: Planes, y: nat, x: nat, conformOpenCv: bool, high: Int16, position: nat)
    requires p.Valid() && y < p.height && x + 8 <= p.width && p.IsNullGroup(y, x)
    ensures StrongPositions(GroupResult(p, y, x, conformOpenCv, high), position) == []
  {
    NoMoreStrongPositions(GroupResult(p, y, x, conformOpenCv, high), position, 0);
  }

  // The buffer and the stack are what hysteresis expects.
  lemma ReadyForHysteresis(p: Planes, img: seq<Byte>, stack: seq<nat>, conformOpenCv: bool, high: Int16)
    requires p.Valid() && p.width % 8 == 0 && Progress(p, img, stack, conformOpenCv, high, p.height, 0)
    ensures Hysteresis.BandIsClear(img, p.width + 2)
    ensures Hysteresis.StackIsStrong(img, stack)
    ensures forall q :: 0 <= q < |img| && img[q] == Hysteresis.STRONG ==> q in stack
  {
    hide Suppressed, RowStart;
    var stride := p.width + 2;
    forall q | 0 <= q < |img| && Hysteresis.IsBand(|img|, stride, q) ensures img[q] == 0 {
      var y, x := CoordinatesOf(q, stride, p.height + 2);
      if IsInterior(stride, p.height + 2, Margin(1, 1, 1, 1), y, x) {
        InteriorIsNotBand(p.width, p.height, y, x);
      }
      assert OnMargin(p.width, p.height, y, x);
    }
    forall q | 0 <= q < |img| && img[q] == Hysteresis.STRONG ensures q in stack {
      var y, x := CoordinatesOf(q, stride, p.height + 2);
      assert !OnMargin(p.width, p.height, y, x);
      if IsInterior(stride, p.height + 2, Margin(1, 1, 1, 1), y, x) {
        assert q == Position(p.width, y - 1, x - 1);
      }
    }
  }

  lemma InteriorIsNotBand(width: nat, height: nat, y: nat, x: nat)
    requires 0 < y <= height && 0 < x <= width
    ensures !Hysteresis.IsBand(RowStart(0, width + 2, height + 2), width + 2, PixelAt(0, width + 2, y, x))
  {
    RowStartsGrow(0, width + 2, 1, y);
    RowStartsGrow(0, width + 2, y, height);
    assert RowStart(0, width + 2, height + 2) == RowStart(0, width + 2, height) + 2 * (width + 2);
  }
}
