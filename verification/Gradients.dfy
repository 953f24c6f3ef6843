/** Classification of gradient directions in 32-bit fixed point, lane by lane. */
module Gradients {

  // A signed 16-bit element.
  type Int16 = x: int | -0x8000 <= x < 0x8000

  const MIN_INT16: Int16 := -0x8000
  const MAX_INT16: Int16 := 0x7FFF

  // tan(22.5 degrees) scaled by 2^15; tan(67.5 degrees) is the same plus 2.
  const TAN_22P5: int := 13573
  const SCALE: int := 0x8000
  const TAN_67P5: int := 79109

  // The largest |gx| for which no intermediate value overflows.
  const MAX_GX: int := 27145

  // The largest gradient that the 3x3 Sobel operator finds in an image of bytes.
  const MAX_SOBEL: int := 1020

  function Wrap32(x: int): int {
    (x + 0x8000_0000) % 0x1_0000_0000 - 0x8000_0000
  }

  // vabsq_s16 leaves the most negative value as it is.
  function AbsInt16(x: Int16): Int16 {
    if x == MIN_INT16 then MIN_INT16 else if x < 0 then -x else x
  }

  // One lane of atan_classification.
  function Classify(gx: Int16, gy: Int16): int {
    var absGx, absGy := AbsInt16(gx), AbsInt16(gy);
    var gx22p5 := Wrap32(absGx * TAN_22P5);
    var gyScaled := Wrap32(absGy * SCALE);
    var cmp22p5 := if gyScaled >= gx22p5 then -1 else 0;
    var gx67p5 := Wrap32(gx22p5 + Wrap32(absGx * 0x1_0000));
    var cmp67p5 := if gyScaled > gx67p5 then -1 else 0;
    var cmpSign := if (gx < 0) != (gy < 0) then -1 else 0;  // sign bit of the exclusive or
    var res := (cmp22p5 + cmp67p5) * 2 + cmpSign;
    if res < 0 then -res else res
  }

  function Abs(x: int): nat {
    if x < 0 then -x else x
  }

  // The category that the exact ratio |gy| / |gx| belongs to: 0 below 22.5 degrees, 4 above 67.5 degrees,
  // 2 between, plus one when the signs differ.
  function Category(gx: int, gy: int): int {
    (if SCALE * Abs(gy) < TAN_22P5 * Abs(gx) then 0 else if SCALE * Abs(gy) > TAN_67P5 * Abs(gx) then 4 else 2)
    + if (gx < 0) != (gy < 0) then 1 else 0
  }

  // When 16-bit absolute values and 32-bit products do not spoil the comparison.
  predicate IsClassifiedExactly(gx: Int16, gy: Int16) {
    if gy == MIN_INT16 then MAX_GX < Abs(gx) <= MAX_INT16
    else if gx == MIN_INT16 then TAN_22P5 <= Abs(gy)
    else Abs(gx) <= MAX_GX
  }

  // The documented limit, |gx| and |gy| at most 27145, is sufficient; this is the exact condition.
  lemma ClassificationIsExact(gx: Int16, gy: Int16)
    ensures 0 <= Classify(gx, gy) <= 5
    ensures Classify(gx, gy) == Category(gx, gy) <==> IsClassifiedExactly(gx, gy)
    ensures Abs(gx) <= MAX_GX && Abs(gy) <= MAX_GX ==> IsClassifiedExactly(gx, gy)
  {
    var absGx, absGy := AbsInt16(gx), AbsInt16(gy);
    assert Wrap32(absGx * TAN_22P5) == absGx * TAN_22P5;
    assert Wrap32(absGy * SCALE) == absGy * SCALE;
    assert Wrap32(absGx * 0x1_0000) == absGx * 0x1_0000;
    var sum := absGx * TAN_22P5 + absGx * 0x1_0000;
    assert sum == TAN_67P5 * absGx;
    if absGx > MAX_GX {
      assert Wrap32(sum) == sum - 0x1_0000_0000;
    } else if absGx == MIN_INT16 {
      assert Wrap32(sum) == sum + 0x1_0000_0000;
    } else {
      assert Wrap32(sum) == sum;
    }
  }

  // One more than the limit: a horizontal gradient is taken for a diagonal one.
  lemma OverflowingGradient()
    ensures Category(MAX_GX + 1, 0) == 0 && Classify(MAX_GX + 1, 0) == 2
  {
  }

  // No gradient at all counts as the diagonal; a vertical gradient without horizontal part is vertical, except that the
  // most negative one has no absolute value and is taken for horizontal.
  lemma DegenerateGradients(gy: Int16)
    ensures Classify(0, gy) == if gy == 0 then 2 else if gy == MIN_INT16 then 1 else if gy < 0 then 5 else 4
  {
    ClassificationIsExact(0, gy);
  }
}
