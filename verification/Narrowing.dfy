/** Narrowing four vectors of 32-bit elements to one vector of saturated bytes, for every scalable vector length. */
module Narrowing {
  import opened Basics

  function Bytes(signed: bool): Limits { if signed then Limits(-0x80, 0x7F) else Limits(0, 0xFF) }

  function Halfwords(signed: bool): Limits { if signed then Limits(-0x8000, 0x7FFF) else Limits(0, 0xFFFF) }

  function Saturate(x: int, to: Limits): int {
    if x > to.highest then to.highest else if x < to.lowest then to.lowest else x
  }

  // A saturated value lies within the limits, and between the original and any value there.
  lemma SaturatedIsClosest(x: int, to: Limits, y: int)
    requires to.lowest <= y <= to.highest
    ensures to.lowest <= Saturate(x, to) <= to.highest
    ensures x <= Saturate(x, to) <= y || y <= Saturate(x, to) <= x
  {
  }

  // Saturating in two steps is saturating at once.
  lemma TwoStepsAreOne(x: int, signed: bool)
    ensures Saturate(Saturate(x, Halfwords(signed)), Bytes(signed)) == Saturate(x, Bytes(signed))
  {
  }

  // svqxtnb: narrowed elements in the even positions, zeros in the odd ones.
  function NarrowBottom(v: seq<int>, to: Limits): (r: seq<int>)
    ensures |r| == 2 * |v|
  {
    seq(2 * |v|, i requires 0 <= i < 2 * |v| => if i % 2 == 0 then Saturate(v[i / 2], to) else 0)
  }

  // svqxtnt: narrowed elements in the odd positions, the even ones kept.
  function NarrowTop(even: seq<int>, v: seq<int>, to: Limits): (r: seq<int>)
    requires |even| == 2 * |v|
    ensures |r| == |even|
  {
    seq(|even|, i requires 0 <= i < |even| => if i % 2 == 1 then Saturate(v[i / 2], to) else even[i])
  }

  // svindex_u8: an arithmetic progression modulo 256.
  function Index(base: nat, step: nat, length: nat): (v: seq<nat>)
    ensures |v| == length
  {
    seq(length, i requires 0 <= i < length => (base + i * step) % 256)
  }

  // svsplice with the first count lanes active: these of a, then b from its first lane.
  function Splice(count: nat, a: seq<nat>, b: seq<nat>): (r: seq<nat>)
    requires count <= |a| == |b|
    ensures |r| == |a|
  {
    a[..count] + b[..|b| - count]
  }

  // svtbl
  function TableLookup(data: seq<int>, indices: seq<nat>): seq<int> {
    seq(|indices|, i requires 0 <= i < |indices| => if indices[i] < |data| then data[indices[i]] else 0)
  }

  // The permutation that the wrapper is constructed with, for vectors of 4 * quarter bytes.
  function Permutation(quarter: nat): (v: seq<nat>)
    ensures |v| == 4 * quarter
  {
    var length := 4 * quarter;
    var third := Splice(quarter, Index(3, 4, length), seq(length, _ => 0));
    var second := Splice(quarter, Index(2, 4, length), third);
    var first := Splice(quarter, Index(1, 4, length), second);
    Splice(quarter, Index(0, 4, length), first)
  }

  lemma SpliceAt(count: nat, a: seq<nat>, b: seq<nat>, p: nat)
    requires count <= |a| == |b| && p < |a|
    ensures Splice(count, a, b)[p] == if p < count then a[p] else b[p - count]
  {
  }

  lemma IndexAt(base: nat, length: nat, i: nat)
    requires i < length && base + 4 * i < 256
    ensures Index(base, 4, length)[i] == base + 4 * i
  {
  }

  // Where vector j starts in the result.
  function Start(j: nat, quarter: nat): nat {
    if j == 0 then 0 else if j == 1 then quarter else if j == 2 then 2 * quarter else 3 * quarter
  }

  // It reads every fourth element, then the next ones: no index wraps for vectors of up to 256 bytes.
  lemma PermutationIs(quarter: nat, j: nat, i: nat)
    requires j < 4 && i < quarter <= 64
    ensures Permutation(quarter)[Start(j, quarter) + i] == j + 4 * i
  {
    hide Splice, Index;
    var length := 4 * quarter;
    var zeros: seq<nat> := seq(length, _ => 0);
    var third := Splice(quarter, Index(3, 4, length), zeros);
    var second := Splice(quarter, Index(2, 4, length), third);
    var first := Splice(quarter, Index(1, 4, length), second);
    SpliceAt(quarter, Index(0, 4, length), first, Start(j, quarter) + i);
    if j > 0 { SpliceAt(quarter, Index(1, 4, length), second, Start(j - 1, quarter) + i); }
    if j > 1 { SpliceAt(quarter, Index(2, 4, length), third, Start(j - 2, quarter) + i); }
    if j > 2 { SpliceAt(quarter, Index(3, 4, length), zeros, i); }
    IndexAt(j, length, i);
  }

  // SvqvctWrapper::operator()
  function Narrow(v0: seq<int>, v1: seq<int>, v2: seq<int>, v3: seq<int>, signed: bool): seq<int>
    requires |v0| == |v1| == |v2| == |v3|
  {
    var half0 := NarrowTop(NarrowBottom(v0, Halfwords(signed)), v2, Halfwords(signed));
    var half1 := NarrowTop(NarrowBottom(v1, Halfwords(signed)), v3, Halfwords(signed));
    var bytes := NarrowTop(NarrowBottom(half0, Bytes(signed)), half1, Bytes(signed));
    TableLookup(bytes, Permutation(|v0|))
  }

  function Pick(v0: seq<int>, v1: seq<int>, v2: seq<int>, v3: seq<int>, j: nat): seq<int> {
    if j == 0 then v0 else if j == 1 then v1 else if j == 2 then v2 else v3
  }

  // Element i of vector j ends at position i of the j-th quarter, saturated straight to a byte.
  lemma NarrowedElement(v0: seq<int>, v1: seq<int>, v2: seq<int>, v3: seq<int>, signed: bool, j: nat, i: nat)
    requires |v0| == |v1| == |v2| == |v3| <= 64 && j < 4 && i < |v0|
    ensures |Narrow(v0, v1, v2, v3, signed)| == 4 * |v0|
    ensures Narrow(v0, v1, v2, v3, signed)[Start(j, |v0|) + i] == Saturate(Pick(v0, v1, v2, v3, j)[i], Bytes(signed))
  {
    hide Permutation, Saturate, Bytes, Halfwords, NarrowTop, NarrowBottom;
    var halves, bytesLimit, m := Halfwords(signed), Bytes(signed), j / 2 + 2 * i;
    PermutationIs(|v0|, j, i);
    var half0 := NarrowTop(NarrowBottom(v0, halves), v2, halves);
    var half1 := NarrowTop(NarrowBottom(v1, halves), v3, halves);
    assert (j + 4 * i) / 2 == m && (j + 4 * i) % 2 == j % 2 && m / 2 == i && m % 2 == j / 2;
    Interleaved(half0, half1, bytesLimit, j + 4 * i);
    Interleaved(v0, v2, halves, m);
    Interleaved(v1, v3, halves, m);
    TwoStepsAreOne(Pick(v0, v1, v2, v3, j)[i], signed);
  }

  // Bottom and top narrowing interleave two vectors.
  lemma Interleaved(even: seq<int>, odd: seq<int>, to: Limits, i: nat)
    requires |even| == |odd| && i < 2 * |even|
    ensures NarrowTop(NarrowBottom(even, to), odd, to)[i]
              == Saturate(if i % 2 == 0 then even[i / 2] else odd[i / 2], to)
  {
  }

  // The whole result: the four vectors, one after the other, saturated straight to bytes.
  lemma NarrowIsSequential(v0: seq<int>, v1: seq<int>, v2: seq<int>, v3: seq<int>, signed: bool)
    requires |v0| == |v1| == |v2| == |v3| <= 64
    ensures Narrow(v0, v1, v2, v3, signed)
         == seq(4 * |v0|, p requires 0 <= p < 4 * |v0| =>
                  var x := (v0 + v1 + v2 + v3)[p];
                  if signed then (if x < -128 then -128 else if x > 127 then 127 else x)
                  else if x < 0 then 0 else if x > 255 then 255 else x)
  {
    hide Narrow, Saturate, Bytes;
    var q, all := |v0|, v0 + v1 + v2 + v3;
    NarrowLength(v0, v1, v2, v3, signed);
    forall p | 0 <= p < 4 * q ensures Narrow(v0, v1, v2, v3, signed)[p] == Saturate(all[p], Bytes(signed)) {
      var j := if p < q then 0 else if p < 2 * q then 1 else if p < 3 * q then 2 else 3;
      var i := if p < q then p else if p < 2 * q then p - q else if p < 3 * q then p - 2 * q else p - 3 * q;
      NarrowedElement(v0, v1, v2, v3, signed, j, i);
    }
    forall p | 0 <= p < 4 * q {
      SaturatedByte(all[p], signed);
    }
  }

  lemma SaturatedByte(x: int, signed: bool)
    ensures Saturate(x, Bytes(signed))
         == if signed then (if x < -128 then -128 else if x > 127 then 127 else x)
            else if x < 0 then 0 else if x > 255 then 255 else x
  {
  }

  lemma NarrowLength(v0: seq<int>, v1: seq<int>, v2: seq<int>, v3: seq<int>, signed: bool)
    requires |v0| == |v1| == |v2| == |v3|
    ensures |Narrow(v0, v1, v2, v3, signed)| == 4 * |v0|
  {
  }
}
