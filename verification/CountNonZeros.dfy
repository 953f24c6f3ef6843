/** Counting non-zero bytes with lane counters that step down by one modulo 256. */
module CountNonZerosOperation {
  import opened Basics
  import opened Lanes

  const MAX_VECTORS_PER_BLOCK: nat := 255

  function NonZeros(s: seq<Byte>): nat {
    if s == [] then 0 else NonZeros(s[..|s| - 1]) + if s[|s| - 1] != 0 then 1 else 0
  }

  lemma {:induction false} NonZerosOfConcat(a: seq<Byte>, b: seq<Byte>)
    ensures NonZeros(a + b) == NonZeros(a) + NonZeros(b)
  {
    if b == [] {
      assert a + b == a;
    } else {
      var front := b[..|b| - 1];
      NonZerosOfConcat(a, front);
      assert (a + b)[..|a + b| - 1] == a + front;
    }
  }

  // The count is the number of positions that do not hold zero.
  lemma {:induction false} NonZerosAreCounted(s: seq<Byte>)
    ensures NonZeros(s) == |set i | 0 <= i < |s| && s[i] != 0|
  {
    if s != [] {
      var n := |s| - 1;
      NonZerosAreCounted(s[..n]);
      var all, front := set i | 0 <= i < |s| && s[i] != 0, set i | 0 <= i < n && s[..n][i] != 0;
      assert all == front + if s[n] != 0 then {n} else {};
    }
  }

  // vtstq_u8(src, src)
  function TestBits(src: Vector): Vector {
    seq(LANES, l requires 0 <= l < LANES => if src[l] != 0 then 255 else 0)
  }

  // vnegq_s8 on the byte pattern
  function Negate(v: Vector): Vector {
    seq(LANES, l requires 0 <= l < LANES => NegateByte(v[l]))
  }

  // vaddlvq_u8: the widening sum across the first n lanes
  function SumAcross(v: seq<int>, n: nat := |v|): (sum: int)
    requires n <= |v|
    ensures (forall l :: 0 <= l < n ==> v[l] >= 0) ==> sum >= 0
  {
    if n == 0 then 0 else SumAcross(v, n - 1) + v[n - 1]
  }

  lemma {:induction false} SumAcrossIsPointwise(a: seq<int>, b: seq<int>, c: seq<int>, n: nat)
    requires n <= |a| && n <= |b| && n <= |c|
    requires forall l :: 0 <= l < n ==> c[l] == a[l] + b[l]
    ensures SumAcross(c, n) == SumAcross(a, n) + SumAcross(b, n)
  {
    if n > 0 { SumAcrossIsPointwise(a, b, c, n - 1); }
  }

  function Flags(s: seq<Byte>): (f: seq<int>)
    ensures |f| == |s|
  {
    seq(|s|, i requires 0 <= i < |s| => if s[i] != 0 then 1 else 0)
  }

  lemma {:induction false} SumOfFlags(s: seq<Byte>, n: nat)
    requires n <= |s|
    ensures SumAcross(Flags(s), n) == NonZeros(s[..n])
  {
    if n > 0 {
      SumOfFlags(s, n - 1);
      assert s[..n][..n - 1] == s[..n - 1];
    }
  }

  // The true per-lane counts of a block of at most 255 vectors are recovered from the byte accumulators.
  ghost predicate Counts(accumulator: nat, lanes: Vector, counts: seq<int>, pending: nat, consumed: seq<Byte>) {
    && pending <= MAX_VECTORS_PER_BLOCK
    && |counts| == LANES
    && (forall l :: 0 <= l < LANES ==> 0 <= counts[l] <= pending && lanes[l] == NegateByte(counts[l]))
    && accumulator + SumAcross(counts) == NonZeros(consumed)
  }

  lemma CountVector(accumulator: nat, lanes: Vector, counts: seq<int>, pending: nat, consumed: seq<Byte>, src: Vector)
    returns (counts': seq<int>)
    requires Counts(accumulator, lanes, counts, pending, consumed) && pending < MAX_VECTORS_PER_BLOCK
    ensures Counts(accumulator, AddLanes(lanes, TestBits(src)), counts', pending + 1, consumed + src)
  {
    var flags := Flags(src);
    counts' := seq(LANES, l requires 0 <= l < LANES => counts[l] + flags[l]);
    SumAcrossIsPointwise(counts, flags, counts', LANES);
    SumOfFlags(src, LANES);
    assert src[..LANES] == src;
    NonZerosOfConcat(consumed, src);
    forall l | 0 <= l < LANES
      ensures AddLanes(lanes, TestBits(src))[l] == NegateByte(counts'[l])
    {
      StepDown(counts[l], src[l]);
    }
  }

  // Adding 0xFF modulo 256 counts one down.
  lemma StepDown(count: int, x: Byte)
    ensures AddByte(NegateByte(count), if x != 0 then 255 else 0) == NegateByte(count + if x != 0 then 1 else 0)
  {
  }

  lemma CountBlock(accumulator: nat, lanes: Vector, counts: seq<int>, pending: nat, consumed: seq<Byte>)
    requires Counts(accumulator, lanes, counts, pending, consumed)
    ensures SumAcross(Negate(lanes)) >= 0
    ensures Counts(accumulator + SumAcross(Negate(lanes)), Dup(0), seq(LANES, _ => 0), 0, consumed)
  {
    forall l | 0 <= l < LANES ensures Negate(lanes)[l] == counts[l] {
      NegateTwice(counts[l]);
    }
    assert Negate(lanes) == counts;
    SumOfNothing(seq(LANES, _ => 0), LANES);
  }

  lemma NegateTwice(count: int)
    requires 0 <= count <= 255
    ensures NegateByte(NegateByte(count)) == count
  {
  }

  lemma {:induction false} SumOfNothing(counts: seq<int>, n: nat)
    requires n <= |counts| && forall l :: 0 <= l < n ==> counts[l] == 0
    ensures SumAcross(counts, n) == 0
  {
    if n > 0 { SumOfNothing(counts, n - 1); }
  }

  lemma CountScalar(accumulator: nat, lanes: Vector, counts: seq<int>, consumed: seq<Byte>, src: Byte)
    requires Counts(accumulator, lanes, counts, 0, consumed)
    ensures Counts(accumulator + if src != 0 then 1 else 0, lanes, counts, 0, consumed + [src])
  {
    NonZerosOfConcat(consumed, [src]);
    assert [src][..0] == [];
  }

  class CountNonZeros {
    var accumulator: nat
    var laneAccumulator: Vector
    ghost var consumed: seq<Byte>
    ghost var pending: nat
    ghost var laneCounts: seq<int>

    ghost predicate Valid()
      reads this
    {
      Counts(accumulator, laneAccumulator, laneCounts, pending, consumed)
    }

    constructor ()
      ensures Valid() && consumed == [] && pending == 0
    {
      accumulator, laneAccumulator := 0, Dup(0);
      consumed, pending, laneCounts := [], 0, seq(LANES, _ => 0);
      new;
      SumOfNothing(laneCounts, LANES);
    }

    method VectorPath(src: Vector)
      requires Valid() && pending < MAX_VECTORS_PER_BLOCK
      modifies this
      ensures Valid() && consumed == old(consumed) + src && pending == old(pending) + 1
    {
      hide Counts, AddLanes;
      laneCounts := CountVector(accumulator, laneAccumulator, laneCounts, pending, consumed, src);
      laneAccumulator := AddLanes(laneAccumulator, TestBits(src));
      consumed, pending := consumed + src, pending + 1;
    }

    method ScalarPath(src: Byte)
      requires Valid() && pending == 0
      modifies this
      ensures Valid() && consumed == old(consumed) + [src] && pending == 0
    {
      hide Counts;
      CountScalar(accumulator, laneAccumulator, laneCounts, consumed, src);
      accumulator := accumulator + if src != 0 then 1 else 0;
      consumed := consumed + [src];
    }

    method OnBlockFinished(vectorsInBlock: nat)
      requires Valid() && vectorsInBlock == pending
      modifies this
      ensures Valid() && consumed == old(consumed) && pending == 0
    {
      hide Counts;
      CountBlock(accumulator, laneAccumulator, laneCounts, pending, consumed);
      accumulator := accumulator + SumAcross(Negate(laneAccumulator));
      laneAccumulator := Dup(0);
      pending, laneCounts := 0, seq(LANES, _ => 0);
    }

    method Result() returns (count: nat)
      requires Valid() && pending == 0
      ensures count == NonZeros(consumed)
    {
      forall l | 0 <= l < LANES ensures laneCounts[l] == 0 {}
      SumOfNothing(laneCounts, LANES);
      count := accumulator;
    }
  }
}
