/** Lane-wise meaning of the 128-bit Neon instructions on sixteen byte lanes. */
module Lanes {
  import opened Basics
  import opened Extremum

  const LANES: nat := 16

  type Vector = v: seq<Byte> | |v| == 16
    witness [0, 0, 0, 0, 0, 0, 0, 0, 0, 0, 0, 0, 0, 0, 0, 0]

  // vdupq
  function Dup(x: Byte): (v: Vector)
    ensures forall l :: 0 <= l < LANES ==> v[l] == x
  {
    seq(LANES, _ => x)
  }

  // vcltq (Smallest) and vcgtq (Largest): all-ones where a is strictly better.
  function CompareBetter(d: Direction, a: Vector, b: Vector): Vector {
    seq(LANES, l requires 0 <= l < LANES => if Better(d, a[l], b[l]) then 255 else 0)
  }

  // vcleq (Smallest) and vcgeq (Largest): all-ones where a is at least as good.
  function CompareNoWorse(d: Direction, a: Vector, b: Vector): Vector {
    seq(LANES, l requires 0 <= l < LANES => if Better(d, b[l], a[l]) then 0 else 255)
  }

  // vceqzq
  function CompareZero(a: Vector): Vector {
    seq(LANES, l requires 0 <= l < LANES => if a[l] == 0 then 255 else 0)
  }

  predicate IsMask(m: Vector) {
    forall l :: 0 <= l < LANES ==> m[l] == 0 || m[l] == 255
  }

  // vbslq: a bitwise select, which picks whole lanes when the mask is a compare result.
  function Select(mask: Vector, a: Vector, b: Vector): Vector
    requires IsMask(mask)
  {
    seq(LANES, l requires 0 <= l < LANES => if mask[l] == 255 then a[l] else b[l])
  }

  // vminq and vmaxq
  function BestLanes(d: Direction, a: Vector, b: Vector): Vector {
    seq(LANES, l requires 0 <= l < LANES => Best(d, a[l], b[l]))
  }

  // vaddq_u8 wraps modulo 256.
  function AddLanes(a: Vector, b: Vector): Vector {
    seq(LANES, l requires 0 <= l < LANES => AddByte(a[l], b[l]))
  }

  // vminvq and vmaxvq: the best value across the first n lanes.
  function Across(d: Direction, v: Vector, n: nat := LANES): (m: Byte)
    requires 1 <= n <= LANES
    ensures exists l :: 0 <= l < n && m == v[l]
    ensures forall l :: 0 <= l < n ==> !Better(d, v[l], m)
  {
    if n == 1 then v[0] else Best(d, Across(d, v, n - 1), v[n - 1])
  }

  // A little-endian integer made of the given bytes.
  function Word(bytes: seq<Byte>): nat {
    if bytes == [] then 0 else bytes[0] + 256 * Word(bytes[1..])
  }

  lemma {:induction false} WordIsZero(bytes: seq<Byte>)
    ensures Word(bytes) == 0 <==> forall i :: 0 <= i < |bytes| ==> bytes[i] == 0
  {
    if bytes != [] {
      WordIsZero(bytes[1..]);
      if Word(bytes) == 0 {
        forall i | 0 <= i < |bytes| ensures bytes[i] == 0 {
          if i > 0 { assert bytes[i] == bytes[1..][i - 1]; }
        }
      }
    }
  }

  // vmaxvq_u32(vreinterpretq_u32_u8(v))
  function HorizontalMaxU32(v: Vector): nat {
    Max(Max(Word(v[0..4]), Word(v[4..8])), Max(Word(v[8..12]), Word(v[12..16])))
  }

  // The 32-bit maximum is zero exactly when no byte lane is set: the logical OR the source wants.
  lemma HorizontalMaxIsAnyLane(v: Vector)
    ensures HorizontalMaxU32(v) != 0 <==> exists l :: 0 <= l < LANES && v[l] != 0
  {
    WordIsZero(v[0..4]);
    WordIsZero(v[4..8]);
    WordIsZero(v[8..12]);
    WordIsZero(v[12..16]);
    if HorizontalMaxU32(v) == 0 {
      forall l | 0 <= l < LANES ensures v[l] == 0 {
        if l < 4 { assert v[l] == v[0..4][l]; }
        else if l < 8 { assert v[l] == v[4..8][l - 4]; }
        else if l < 12 { assert v[l] == v[8..12][l - 8]; }
        else { assert v[l] == v[12..16][l - 12]; }
      }
    }
  }

  // __builtin_ctzll
  function CountTrailingZeros(x: nat): nat
    requires x != 0
  {
    if x % 2 == 1 then 0 else 1 + CountTrailingZeros(x / 2)
  }

  lemma {:induction false} TrailingZerosOfShifted(x: nat, k: nat, p: nat)
    requires x != 0 && p == Power2(k)
    ensures p * x != 0 && CountTrailingZeros(p * x) == k + CountTrailingZeros(x)
  {
    if k > 0 {
      var half := Power2(k - 1);
      TrailingZerosOfShifted(x, k - 1, half);
      assert p * x == 2 * (half * x);
    }
  }

  function Power2(k: nat): (p: nat)
    ensures p > 0
  {
    if k == 0 then 1 else 2 * Power2(k - 1)
  }

  // The number of trailing zeros, counted in bytes, is the index of the first flag.
  lemma {:induction false} TrailingZerosFindFirst(flags: seq<Byte>, r: nat)
    requires r < |flags| && flags[r] == 255
    requires forall i :: 0 <= i < r ==> flags[i] == 0
    ensures Word(flags) != 0 && CountTrailingZeros(Word(flags)) / 8 == r
    ensures CountTrailingZeros(Word(flags)) == 8 * r
  {
    if r > 0 {
      TrailingZerosFindFirst(flags[1..], r - 1);
      assert Power2(8) == 256;
      TrailingZerosOfShifted(Word(flags[1..]), 8, 256);
    }
  }

  // MinMaxLoc::lane_of_first_smallest: flags in two 64-bit halves, then count trailing zeros.
  function LaneOfFirstSmallest(values: Vector, smallest: Byte): nat
    requires exists l :: 0 <= l < LANES && values[l] <= smallest
  {
    var flags := CompareNoWorse(Smallest, values, Dup(smallest));
    var low := Word(flags[0..8]);
    WordIsZero(flags[0..8]);
    WordIsZero(flags[8..16]);
    assert low == 0 ==> Word(flags[8..16]) != 0 by { FlagInHighHalf(values, smallest); }
    var lane := if low == 0 then 8 else 0;
    var half := if lane != 0 then Word(flags[8..16]) else low;
    lane + CountTrailingZeros(half) / 8
  }

  lemma FlagInHighHalf(values: Vector, smallest: Byte)
    requires exists l :: 0 <= l < LANES && values[l] <= smallest
    ensures var flags := CompareNoWorse(Smallest, values, Dup(smallest));
            Word(flags[0..8]) == 0 ==> Word(flags[8..16]) != 0
  {
    var flags := CompareNoWorse(Smallest, values, Dup(smallest));
    WordIsZero(flags[0..8]);
    WordIsZero(flags[8..16]);
    var l :| 0 <= l < LANES && values[l] <= smallest;
    if l < 8 { assert flags[0..8][l] == 255; } else { assert flags[8..16][l - 8] == 255; }
  }

  // It is the first lane whose value does not exceed the given one.
  lemma FirstSmallestLane(values: Vector, smallest: Byte, r: nat)
    requires r < LANES && values[r] <= smallest
    requires forall l :: 0 <= l < r ==> smallest < values[l]
    ensures LaneOfFirstSmallest(values, smallest) == r
  {
    var flags := CompareNoWorse(Smallest, values, Dup(smallest));
    WordIsZero(flags[0..8]);
    if r < 8 {
      TrailingZerosFindFirst(flags[0..8], r);
    } else {
      TrailingZerosFindFirst(flags[8..16], r - 8);
    }
  }
}
