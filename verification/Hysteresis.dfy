/** Canny hysteresis: a worklist flood fill that promotes weak pixels connected to strong ones. Pixels are
    positions in a padded byte buffer: 0 is no edge, 1 a weak edge and 255 a strong edge. */
module Hysteresis {
  import opened Basics

  const WEAK: Byte := 1
  const STRONG: Byte := 255

  // One of the eight positions around p in a buffer with the given row stride.
  predicate IsNeighbour(stride: nat, p: int, q: int) {
    || q == p - stride - 1 || q == p - stride || q == p - stride + 1
    || q == p - 1 || q == p + 1
    || q == p + stride - 1 || q == p + stride || q == p + stride + 1
  }

  // The eight neighbours in the order in which they are visited.
  function Neighbour(stride: nat, p: int, k: nat): int {
    if k == 0 then p - stride - 1 else if k == 1 then p - stride else if k == 2 then p - stride + 1
    else if k == 3 then p - 1 else if k == 4 then p + 1
    else if k == 5 then p + stride - 1 else if k == 6 then p + stride else p + stride + 1
  }

  // The first k neighbours of p are not weak.
  ghost predicate Settled(img: seq<Byte>, stride: nat, p: int, k: nat) {
    forall i :: 0 <= i < k <= 8 && 0 <= Neighbour(stride, p, i) < |img| ==> img[Neighbour(stride, p, i)] != WEAK
  }

  // The first and last rows (and the corners next to them), where no pixel is an edge.
  predicate IsBand(size: nat, stride: nat, p: int) {
    p < stride + 1 || p >= size - stride - 1
  }

  ghost predicate BandIsClear(img: seq<Byte>, stride: nat) {
    forall p :: 0 <= p < |img| && IsBand(|img|, stride, p) ==> img[p] != WEAK && img[p] != STRONG
  }

  // A strong pixel followed by weak pixels, each next to the one before.
  ghost predicate IsChain(img: seq<Byte>, stride: nat, path: seq<int>) {
    && path != []
    && (forall i :: 0 <= i < |path| ==> 0 <= path[i] < |img| && img[path[i]] == if i == 0 then STRONG else WEAK)
    && (forall i :: 1 <= i < |path| ==> IsNeighbour(stride, path[i - 1], path[i]))
  }

  // p is a strong pixel, or is joined to one by a chain of weak pixels.
  ghost predicate Connected(img: seq<Byte>, stride: nat, p: int) {
    exists path :: IsChain(img, stride, path) && path[|path| - 1] == p
  }

  function CountWeak(img: seq<Byte>): nat {
    if img == [] then 0 else CountWeak(img[..|img| - 1]) + if img[|img| - 1] == WEAK then 1 else 0
  }

  lemma {:induction false} CountAfterPromotion(img: seq<Byte>, q: nat)
    requires q < |img| && img[q] == WEAK
    ensures CountWeak(img[q := STRONG]) == CountWeak(img) - 1
  {
    var front, img' := img[..|img| - 1], img[q := STRONG];
    if q == |img| - 1 {
      assert img'[..|img| - 1] == front;
    } else {
      CountAfterPromotion(front, q);
      assert img'[..|img| - 1] == front[q := STRONG];
    }
  }

  // --- The invariant of the flood fill ----------------------------------------------------------

  // Strong pixels outside the stack have no weak neighbour left; active is the pixel being expanded, or -1.
  ghost predicate Closed(img: seq<Byte>, stack: seq<nat>, stride: nat, active: int) {
    forall p, q |
      && 0 <= p < |img| && 0 <= q < |img| && img[p] == STRONG && p != active && p !in stack
      && IsNeighbour(stride, p, q) :: img[q] != WEAK
  }

  ghost predicate StackIsStrong(img: seq<Byte>, stack: seq<nat>) {
    && (forall i :: 0 <= i < |stack| ==> stack[i] < |img| && img[stack[i]] == STRONG)
    && (forall i, j :: 0 <= i < j < |stack| ==> stack[i] != stack[j])
  }

  ghost predicate OnlyPromotes(orig: seq<Byte>, img: seq<Byte>, stride: nat) {
    && |img| == |orig|
    && (forall p :: 0 <= p < |img| ==> img[p] == orig[p] || (orig[p] == WEAK && img[p] == STRONG))
    && (forall p :: 0 <= p < |img| && img[p] == STRONG ==> Connected(orig, stride, p))
  }

  ghost predicate Filling(orig: seq<Byte>, img: seq<Byte>, stack: seq<nat>, stride: nat, active: int) {
    && BandIsClear(orig, stride)
    && OnlyPromotes(orig, img, stride)
    && StackIsStrong(img, stack)
    && Closed(img, stack, stride, active)
  }

  lemma StrongIsConnected(img: seq<Byte>, stride: nat, p: nat)
    requires p < |img| && img[p] == STRONG
    ensures Connected(img, stride, p)
  {
    assert IsChain(img, stride, [p]);
  }

  lemma ExtendChain(img: seq<Byte>, stride: nat, p: int, q: int)
    requires Connected(img, stride, p) && IsNeighbour(stride, p, q)
    requires 0 <= q < |img| && img[q] == WEAK
    ensures Connected(img, stride, q)
  {
    var path :| IsChain(img, stride, path) && path[|path| - 1] == p;
    assert IsChain(img, stride, path + [q]);
  }

  // Promoting a weak neighbour of the active pixel.
  lemma Promote(orig: seq<Byte>, img: seq<Byte>, stack: seq<nat>, stride: nat, active: nat, q: nat)
    requires Filling(orig, img, stack, stride, active) && active < |img| && img[active] == STRONG
    requires q < |img| && IsNeighbour(stride, active, q) && img[q] == WEAK
    ensures Filling(orig, img[q := STRONG], stack + [q], stride, active)
  {
    ExtendChain(orig, stride, active, q);
  }

  // An empty stack and no active pixel: everything connected has been reached.
  lemma {:induction false} ChainIsReached(orig: seq<Byte>, img: seq<Byte>, stride: nat, path: seq<int>)
    requires Filling(orig, img, [], stride, -1) && IsChain(orig, stride, path)
    ensures img[path[|path| - 1]] == STRONG
  {
    if |path| > 1 {
      var front := path[..|path| - 1];
      assert IsChain(orig, stride, front);
      ChainIsReached(orig, img, stride, front);
      assert IsNeighbour(stride, path[|path| - 2], path[|path| - 1]);
    }
  }

  // The image after hysteresis, as reachability.
  ghost predicate IsHysteresisOf(orig: seq<Byte>, img: seq<Byte>, stride: nat) {
    && |img| == |orig|
    && forall p :: 0 <= p < |img| ==> img[p] == if Connected(orig, stride, p) then STRONG else orig[p]
  }

  lemma FilledIsReachability(orig: seq<Byte>, img: seq<Byte>, stride: nat)
    requires Filling(orig, img, [], stride, -1)
    ensures IsHysteresisOf(orig, img, stride)
  {
    forall p | 0 <= p < |img|
      ensures img[p] == if Connected(orig, stride, p) then STRONG else orig[p]
    {
      if Connected(orig, stride, p) {
        var path :| IsChain(orig, stride, path) && path[|path| - 1] == p;
        ChainIsReached(orig, img, stride, path);
      }
    }
  }

  // --- The loop ---------------------------------------------------------------------------------

  method HandlePotentiallyStrongPixel(img: array<Byte>, stack: seq<nat>, pixel: nat,
                                      ghost orig: seq<Byte>, ghost stride: nat, ghost active: nat, ghost k: nat)
    returns (stack': seq<nat>)
    requires Filling(orig, img[..], stack, stride, active) && active < img.Length && img[active] == STRONG
    requires k < 8 && pixel == Neighbour(stride, active, k) && pixel < img.Length
    requires Settled(img[..], stride, active, k)
    modifies img
    ensures Filling(orig, img[..], stack', stride, active) && img[active] == STRONG
    ensures Settled(img[..], stride, active, k + 1)
    ensures CountWeak(img[..]) + |stack'| == old(CountWeak(img[..])) + |stack|
  {
    stack' := stack;
    if img[pixel] == WEAK {
      Promote(orig, img[..], stack, stride, active, pixel);
      CountAfterPromotion(img[..], pixel);
      ghost var before := img[..];
      img[pixel] := STRONG;
      assert img[..] == before[pixel := STRONG];
      stack' := stack' + [pixel];
    }
  }

  // At exit a pixel is strong exactly if it was strong at entry or is joined to a strong pixel by weak ones;
  // all other pixels are as before. Every iteration takes one from the weak pixels plus the stack.
  method PerformHysteresis(img: array<Byte>, strongPixels: seq<nat>, stride: nat) returns (ghost iterations: nat)
    requires BandIsClear(img[..], stride)
    requires StackIsStrong(img[..], strongPixels)
    requires forall p :: 0 <= p < img.Length && img[p] == STRONG ==> p in strongPixels
    modifies img
    ensures IsHysteresisOf(old(img[..]), img[..], stride)
    ensures iterations + CountWeak(img[..]) == old(CountWeak(img[..])) + |strongPixels|
  {
    ghost var orig := img[..];
    var stack := strongPixels;
    iterations := 0;
    assert Filling(orig, img[..], stack, stride, -1) by {
      forall p | 0 <= p < |orig| && orig[p] == STRONG ensures Connected(orig, stride, p) {
        StrongIsConnected(orig, stride, p);
      }
    }
    while stack != []
      invariant Filling(orig, img[..], stack, stride, -1)
      invariant iterations + CountWeak(img[..]) + |stack| == CountWeak(orig) + |strongPixels|
      decreases CountWeak(img[..]) + |stack|
    {
      stack := ExpandTop(img, stack, stride, orig);
      iterations := iterations + 1;
    }
    FilledIsReachability(orig, img[..], stride);
  }

  // One iteration: pop a strong pixel and look at its eight neighbours.
  method ExpandTop(img: array<Byte>, stack: seq<nat>, stride: nat, ghost orig: seq<Byte>) returns (stack': seq<nat>)
    requires stack != [] && Filling(orig, img[..], stack, stride, -1)
    modifies img
    ensures Filling(orig, img[..], stack', stride, -1)
    ensures CountWeak(img[..]) + |stack'| + 1 == old(CountWeak(img[..])) + |stack|
  {
    var p := stack[|stack| - 1];
    stack' := stack[..|stack| - 1];
    PopTop(orig, img[..], stack, stride);
    hide CountWeak, Filling, Settled;
    stack' := HandleFirstFour(img, stack', p, stride, orig);
    stack' := HandleLastFour(img, stack', p, stride, orig);
    Expanded(orig, img[..], stack', stride, p);
  }

  method HandleFirstFour(img: array<Byte>, stack: seq<nat>, p: nat, stride: nat, ghost orig: seq<Byte>)
    returns (stack': seq<nat>)
    requires Filling(orig, img[..], stack, stride, p) && stride + 1 <= p < img.Length - stride - 1
    requires img[p] == STRONG && Settled(img[..], stride, p, 0)
    modifies img
    ensures Filling(orig, img[..], stack', stride, p) && img[p] == STRONG && Settled(img[..], stride, p, 4)
    ensures CountWeak(img[..]) + |stack'| == old(CountWeak(img[..])) + |stack|
  {
    hide CountWeak, Filling, Settled;
    stack' := HandlePotentiallyStrongPixel(img, stack, p - stride - 1, orig, stride, p, 0);
    stack' := HandlePotentiallyStrongPixel(img, stack', p - stride, orig, stride, p, 1);
    stack' := HandlePotentiallyStrongPixel(img, stack', p - stride + 1, orig, stride, p, 2);
    stack' := HandlePotentiallyStrongPixel(img, stack', p - 1, orig, stride, p, 3);
  }

  method HandleLastFour(img: array<Byte>, stack: seq<nat>, p: nat, stride: nat, ghost orig: seq<Byte>)
    returns (stack': seq<nat>)
    requires Filling(orig, img[..], stack, stride, p) && stride + 1 <= p < img.Length - stride - 1
    requires img[p] == STRONG && Settled(img[..], stride, p, 4)
    modifies img
    ensures Filling(orig, img[..], stack', stride, p) && img[p] == STRONG && Settled(img[..], stride, p, 8)
    ensures CountWeak(img[..]) + |stack'| == old(CountWeak(img[..])) + |stack|
  {
    hide CountWeak, Filling, Settled;
    stack' := HandlePotentiallyStrongPixel(img, stack, p + 1, orig, stride, p, 4);
    stack' := HandlePotentiallyStrongPixel(img, stack', p + stride - 1, orig, stride, p, 5);
    stack' := HandlePotentiallyStrongPixel(img, stack', p + stride, orig, stride, p, 6);
    stack' := HandlePotentiallyStrongPixel(img, stack', p + stride + 1, orig, stride, p, 7);
  }

  // The popped pixel is away from the first and last rows, so all its neighbours are inside the buffer.
  lemma PopTop(orig: seq<Byte>, img: seq<Byte>, stack: seq<nat>, stride: nat)
    requires stack != [] && Filling(orig, img, stack, stride, -1)
    ensures var p := stack[|stack| - 1];
            && stride + 1 <= p < |img| - stride - 1 && img[p] == STRONG
            && Filling(orig, img, stack[..|stack| - 1], stride, p) && Settled(img, stride, p, 0)
  {
    var p, rest := stack[|stack| - 1], stack[..|stack| - 1];
    assert orig[p] == WEAK || orig[p] == STRONG;
    assert forall r :: r in stack ==> r == p || r in rest;
  }

  lemma Expanded(orig: seq<Byte>, img: seq<Byte>, stack: seq<nat>, stride: nat, p: nat)
    requires Filling(orig, img, stack, stride, p) && Settled(img, stride, p, 8)
    ensures Filling(orig, img, stack, stride, -1)
  {
    forall q | 0 <= q < |img| && IsNeighbour(stride, p, q)
      ensures img[q] != WEAK
    {
      assert || q == Neighbour(stride, p, 0) || q == Neighbour(stride, p, 1) || q == Neighbour(stride, p, 2)
             || q == Neighbour(stride, p, 3) || q == Neighbour(stride, p, 4) || q == Neighbour(stride, p, 5)
             || q == Neighbour(stride, p, 6) || q == Neighbour(stride, p, 7);
    }
  }
}
