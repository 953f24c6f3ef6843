/** The specification that minimum and maximum searches are measured against:
    the index of the first best element of a sequence. */
module Extremum {
  import opened Basics

  datatype Direction = Smallest | Largest

  // Strictly better: the comparison that makes a search replace its candidate.
  predicate Better(d: Direction, a: int, b: int) {
    if d.Smallest? then a < b else b < a
  }

  // The value every byte is at least as good as; searches start from it.
  function Worst(d: Direction): (w: Byte)
    ensures forall x: Byte :: !Better(d, w, x)
  {
    if d.Smallest? then 255 else 0
  }

  function Best(d: Direction, a: Byte, b: Byte): (m: Byte)
    ensures (m == a || m == b) && !Better(d, a, m) && !Better(d, b, m)
  {
    if Better(d, b, a) then b else a
  }

  // r is the index of the first occurrence of the best value of s.
  ghost predicate IsFirstBest(d: Direction, s: seq<Byte>, r: int) {
    && 0 <= r < |s|
    && (forall i :: 0 <= i < |s| ==> !Better(d, s[i], s[r]))
    && (forall i :: 0 <= i < r ==> Better(d, s[r], s[i]))
  }

  lemma FirstBestIsUnique(d: Direction, s: seq<Byte>, r: int, q: int)
    requires IsFirstBest(d, s, r) && IsFirstBest(d, s, q)
    ensures r == q
  {
    assert !Better(d, s[q], s[r]) && !Better(d, s[r], s[q]);
  }

  lemma {:induction false} FirstBestExists(d: Direction, s: seq<Byte>) returns (r: int)
    requires s != []
    ensures IsFirstBest(d, s, r)
  {
    if |s| == 1 {
      r := 0;
    } else {
      var front := s[..|s| - 1];
      r := FirstBestExists(d, front);
      assert forall i :: 0 <= i < |front| ==> front[i] == s[i];
      if Better(d, s[|s| - 1], s[r]) {
        r := |s| - 1;
      }
    }
  }
}
