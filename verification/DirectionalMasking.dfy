/** Selecting, for every lane, the two neighbours along its gradient direction by byte table lookups. */
module DirectionalMasking {
  import opened Basics
  import opened Gradients

  // Lanes of one 16-bit vector, and of the three consecutive vectors loaded from a row.
  type Vec8 = v: seq<Int16> | |v| == 8 witness [0, 0, 0, 0, 0, 0, 0, 0]
  type Row24 = v: seq<Int16> | |v| == 24 witness seq(24, _ => 0)
  // Sixteen bytes of a register, or a constant table of sixteen bytes.
  type Bytes16 = v: seq<Byte> | |v| == 16 witness [0, 0, 0, 0, 0, 0, 0, 0, 0, 0, 0, 0, 0, 0, 0, 0]

  // --- Reinterpreting lanes as little-endian bytes ----------------------------------------------

  function LowByte(x: Int16): Byte { x % 256 }

  function HighByte(x: Int16): Byte { (x / 256) % 256 }

  function FromBytes(low: Byte, high: Byte): Int16 {
    var unsigned := low + 256 * high;
    if unsigned >= 0x8000 then unsigned - 0x1_0000 else unsigned
  }

  lemma BytesRoundTrip(x: Int16)
    ensures FromBytes(LowByte(x), HighByte(x)) == x
  {
  }

  function Bytes(v: seq<Int16>): (b: seq<Byte>)
    ensures |b| == 2 * |v|
  {
    seq(2 * |v|, i requires 0 <= i < 2 * |v| => if i % 2 == 0 then LowByte(v[i / 2]) else HighByte(v[i / 2]))
  }

  function Lanes(b: Bytes16): Vec8 {
    seq(8, k requires 0 <= k < 8 => FromBytes(b[2 * k], b[2 * k + 1]))
  }

  // --- Byte instructions ------------------------------------------------------------------------

  // vtrn1q_s8(v, v): the even bytes, each twice.
  function DuplicateEvenBytes(b: Bytes16): Bytes16 {
    seq(16, i requires 0 <= i < 16 => b[i - i % 2])
  }

  // vqtbl1q: a 16-byte table lookup; indices beyond the table give 0.
  function Lookup(table: Bytes16, indices: Bytes16): Bytes16 {
    seq(16, i requires 0 <= i < 16 => if indices[i] < 16 then table[indices[i]] else 0)
  }

  // vqtbx3q: a 48-byte lookup; indices beyond the table keep the fallback byte. vqtbl3q is the same with zeros.
  function LookupOr(fallback: Bytes16, row: seq<Byte>, indices: Bytes16): Bytes16
    requires |row| == 48
  {
    seq(16, i requires 0 <= i < 16 => if indices[i] < 48 then row[indices[i]] else fallback[i])
  }

  // vaddq_s8 on byte patterns
  function AddBytes(a: Bytes16, b: Bytes16): Bytes16 {
    seq(16, i requires 0 <= i < 16 => AddByte(a[i], b[i]))
  }

  // vabsq_s8 on byte patterns
  function AbsBytes(a: Bytes16): Bytes16 {
    seq(16, i requires 0 <= i < 16 => if a[i] >= 128 then NegateByte(a[i]) else a[i])
  }

  const ZEROS: Bytes16 := [0, 0, 0, 0, 0, 0, 0, 0, 0, 0, 0, 0, 0, 0, 0, 0]
  const LANE_OFFSETS: Bytes16 := [16, 17, 18, 19, 20, 21, 22, 23, 24, 25, 26, 27, 28, 29, 30, 31]
  // Table entries: a byte distance (254 is -2), or 32, which leads beyond the three vectors.
  const RISING: Bytes16 := [32, 32, 2, 254, 0, 0, 32, 32, 32, 32, 32, 32, 32, 32, 32, 32]
  const FALLING: Bytes16 := [32, 32, 254, 2, 0, 0, 32, 32, 32, 32, 32, 32, 32, 32, 32, 32]
  const HORIZONTAL: Bytes16 := [254, 254, 32, 32, 32, 32, 32, 32, 32, 32, 32, 32, 32, 32, 32, 32]

  function PrevRowTable(conformOpenCv: bool): Bytes16 { if conformOpenCv then FALLING else RISING }

  function NextRowTable(conformOpenCv: bool): Bytes16 { if conformOpenCv then RISING else FALLING }

  function SaturatingAdd(a: int, b: int): Int16 {
    if a + b > MAX_INT16 then MAX_INT16 else if a + b < MIN_INT16 then MIN_INT16 else a + b
  }

  // vshrq_n_u16 by 9 and vandq with 0xFF01, on the lookup result as an unsigned 16-bit lane: keeping bit 0 and
  // bits 8 to 15 of a value below 128.
  function DiagonalIncrement(low: Byte, high: Byte): int {
    ((low + 256 * high) / 512) % 2
  }

  datatype Masked = Masked(before: Vec8, current: Vec8, after: Vec8)

  // The lookups into the next and the current row, before the increment.
  function LookupAfter(curr: Row24, next: Row24, directions: Vec8, conformOpenCv: bool): Vec8 {
    var dir := DuplicateEvenBytes(Bytes(directions));
    var fromNext := LookupOr(ZEROS, Bytes(next), AddBytes(Lookup(NextRowTable(conformOpenCv), dir), LANE_OFFSETS));
    Lanes(LookupOr(fromNext, Bytes(curr), AddBytes(AbsBytes(Lookup(HORIZONTAL, dir)), LANE_OFFSETS)))
  }

  // directional_masking
  function MaskByDirection(prev: Row24, curr: Row24, next: Row24, directions: Vec8, conformOpenCv: bool): Masked {
    var dir := DuplicateEvenBytes(Bytes(directions));
    var fromPrev := LookupOr(ZEROS, Bytes(prev), AddBytes(Lookup(PrevRowTable(conformOpenCv), dir), LANE_OFFSETS));
    var nextIndices := Lookup(NextRowTable(conformOpenCv), dir);
    var before := Lanes(LookupOr(fromPrev, Bytes(curr), AddBytes(Lookup(HORIZONTAL, dir), LANE_OFFSETS)));
    var after := LookupAfter(curr, next, directions, conformOpenCv);
    Masked(before, curr[8..16],
           if conformOpenCv
           then seq(8, k requires 0 <= k < 8 =>
                       SaturatingAdd(after[k], DiagonalIncrement(nextIndices[2 * k], nextIndices[2 * k + 1])))
           else after)
  }

  // --- What the lookups select ------------------------------------------------------------------

  // A byte distance of 0, 2 or -2 selects the 16-bit lane in the middle, to the right or to the left.
  lemma LaneSelected(fallback: Bytes16, row: Row24, distances: Bytes16, k: nat, shift: int)
    requires k < 8 && -1 <= shift <= 1
    requires distances[2 * k] == distances[2 * k + 1] == (2 * shift) % 256
    ensures Lanes(LookupOr(fallback, Bytes(row), AddBytes(distances, LANE_OFFSETS)))[k] == row[8 + k + shift]
  {
    hide AddBytes, FromBytes, LowByte, HighByte, Bytes, LookupOr, LANE_OFFSETS;
    var indices := AddBytes(distances, LANE_OFFSETS);
    SelectedIndices(distances, k, shift);
    LookedUp(fallback, Bytes(row), indices, 2 * k);
    LookedUp(fallback, Bytes(row), indices, 2 * k + 1);
    BytesOfLane(row, 8 + k + shift);
  }

  lemma LookedUp(fallback: Bytes16, row: seq<Byte>, indices: Bytes16, i: nat)
    requires |row| == 48 && i < 16 && indices[i] < 48
    ensures LookupOr(fallback, row, indices)[i] == row[indices[i]]
  {
  }

  lemma BytesOfLane(row: Row24, j: nat)
    requires j < 24
    ensures FromBytes(Bytes(row)[2 * j], Bytes(row)[2 * j + 1]) == row[j]
  {
    BytesRoundTrip(row[j]);
  }

  lemma SelectedIndices(distances: Bytes16, k: nat, shift: int)
    requires k < 8 && -1 <= shift <= 1
    requires distances[2 * k] == distances[2 * k + 1] == (2 * shift) % 256
    ensures AddBytes(distances, LANE_OFFSETS)[2 * k] == 2 * (8 + k + shift)
    ensures AddBytes(distances, LANE_OFFSETS)[2 * k + 1] == 2 * (8 + k + shift) + 1
  {
    assert LANE_OFFSETS[2 * k] == 16 + 2 * k && LANE_OFFSETS[2 * k + 1] == 17 + 2 * k;
  }

  // A distance of 32 selects nothing.
  lemma LaneKept(fallback: Bytes16, row: Row24, distances: Bytes16, k: nat)
    requires k < 8 && distances[2 * k] == distances[2 * k + 1] == 32
    ensures Lanes(LookupOr(fallback, Bytes(row), AddBytes(distances, LANE_OFFSETS)))[k] == Lanes(fallback)[k]
  {
    assert LANE_OFFSETS[2 * k] == 16 + 2 * k && LANE_OFFSETS[2 * k + 1] == 17 + 2 * k;
  }

  // Both bytes of a lane look up the direction of that lane.
  lemma TableByDirection(table: Bytes16, directions: Vec8, k: nat)
    requires k < 8 && 0 <= directions[k] <= 5
    ensures var found := Lookup(table, DuplicateEvenBytes(Bytes(directions)));
            found[2 * k] == found[2 * k + 1] == table[directions[k]]
  {
    assert Bytes(directions)[2 * k] == LowByte(directions[k]) == directions[k];
  }

  // The column step towards the neighbour in the previous row, per category.
  function PrevShift(category: int, conformOpenCv: bool): int {
    if category == 2 then (if conformOpenCv then -1 else 1)
    else if category == 3 then (if conformOpenCv then 1 else -1)
    else 0
  }

  predicate IsHorizontal(category: int) { category == 0 || category == 1 }

  predicate IsDiagonal(category: int) { category == 2 || category == 3 }

  // The neighbour before the current pixel along the gradient.
  function Before(prev: Row24, curr: Row24, category: int, conformOpenCv: bool, k: nat): Int16
    requires k < 8
  {
    if IsHorizontal(category) then curr[8 + k - 1] else prev[8 + k + PrevShift(category, conformOpenCv)]
  }

  // The neighbour after it, on the opposite side.
  function After(curr: Row24, next: Row24, category: int, conformOpenCv: bool, k: nat): Int16
    requires k < 8
  {
    if IsHorizontal(category) then curr[8 + k + 1] else next[8 + k - PrevShift(category, conformOpenCv)]
  }

  lemma TableEntries(category: int, conformOpenCv: bool)
    requires 0 <= category <= 5
    ensures HORIZONTAL[category] == if IsHorizontal(category) then 254 else 32
    ensures !IsHorizontal(category) ==>
              && PrevRowTable(conformOpenCv)[category] == (2 * PrevShift(category, conformOpenCv)) % 256
              && NextRowTable(conformOpenCv)[category] == (2 * -PrevShift(category, conformOpenCv)) % 256
    ensures var entry := NextRowTable(conformOpenCv)[category];
            DiagonalIncrement(entry, entry) == if IsDiagonal(category) then 1 else 0
  {
  }

  lemma BeforeIsSelected(prev: Row24, curr: Row24, next: Row24, directions: Vec8, conformOpenCv: bool, k: nat)
    requires k < 8 && 0 <= directions[k] <= 5
    ensures MaskByDirection(prev, curr, next, directions, conformOpenCv).before[k]
         == Before(prev, curr, directions[k], conformOpenCv, k)
  {
    hide Lanes, LookupOr, Lookup, AddBytes, AbsBytes, Bytes, DuplicateEvenBytes, PrevRowTable, NextRowTable, PrevShift,
        HORIZONTAL;
    var c, dir := directions[k], DuplicateEvenBytes(Bytes(directions));
    TableEntries(c, conformOpenCv);
    TableByDirection(PrevRowTable(conformOpenCv), directions, k);
    TableByDirection(HORIZONTAL, directions, k);
    var distances, current := Lookup(PrevRowTable(conformOpenCv), dir), Lookup(HORIZONTAL, dir);
    var fromPrev := LookupOr(ZEROS, Bytes(prev), AddBytes(distances, LANE_OFFSETS));
    if IsHorizontal(c) {
      LaneSelected(fromPrev, curr, current, k, -1);
    } else {
      ShiftIsSmall(c, conformOpenCv);
      LaneSelected(ZEROS, prev, distances, k, PrevShift(c, conformOpenCv));
      LaneKept(fromPrev, curr, current, k);
    }
  }

  lemma ShiftIsSmall(category: int, conformOpenCv: bool)
    ensures -1 <= PrevShift(category, conformOpenCv) <= 1
  {
  }

  lemma AbsOfDistance(v: Bytes16, i: nat)
    requires i < 16
    ensures v[i] == 254 ==> AbsBytes(v)[i] == 2
    ensures v[i] == 32 ==> AbsBytes(v)[i] == 32
  {
  }

  lemma AfterIsLookedUp(curr: Row24, next: Row24, directions: Vec8, conformOpenCv: bool, k: nat)
    requires k < 8 && 0 <= directions[k] <= 5
    ensures LookupAfter(curr, next, directions, conformOpenCv)[k] == After(curr, next, directions[k], conformOpenCv, k)
  {
    hide Lanes, LookupOr, Lookup, AddBytes, AbsBytes, Bytes, DuplicateEvenBytes, NextRowTable, PrevShift, HORIZONTAL,
         DiagonalIncrement;
    var c, dir := directions[k], DuplicateEvenBytes(Bytes(directions));
    TableEntries(c, conformOpenCv);
    TableByDirection(NextRowTable(conformOpenCv), directions, k);
    TableByDirection(HORIZONTAL, directions, k);
    var distances, raw := Lookup(NextRowTable(conformOpenCv), dir), Lookup(HORIZONTAL, dir);
    var current := AbsBytes(raw);
    AbsOfDistance(raw, 2 * k);
    AbsOfDistance(raw, 2 * k + 1);
    var fromNext := LookupOr(ZEROS, Bytes(next), AddBytes(distances, LANE_OFFSETS));
    if IsHorizontal(c) {
      LaneSelected(fromNext, curr, current, k, 1);
    } else {
      ShiftIsSmall(c, conformOpenCv);
      LaneSelected(ZEROS, next, distances, k, -PrevShift(c, conformOpenCv));
      LaneKept(fromNext, curr, current, k);
    }
  }

  lemma AfterIsSelected(prev: Row24, curr: Row24, next: Row24, directions: Vec8, conformOpenCv: bool, k: nat)
    requires k < 8 && 0 <= directions[k] <= 5
    ensures MaskByDirection(prev, curr, next, directions, conformOpenCv).after[k]
         == SaturatingAdd(After(curr, next, directions[k], conformOpenCv, k),
                          if conformOpenCv && IsDiagonal(directions[k]) then 1 else 0)
  {
    hide Lanes, LookupOr, Lookup, AddBytes, AbsBytes, Bytes, DuplicateEvenBytes, PrevRowTable, NextRowTable, PrevShift,
         DiagonalIncrement, HORIZONTAL, After, LookupAfter;
    AfterIsLookedUp(curr, next, directions, conformOpenCv, k);
    TableEntries(directions[k], conformOpenCv);
    TableByDirection(NextRowTable(conformOpenCv), directions, k);
  }
}
