/** Facts about products and quotients, each proved once and away from other facts. */
module Arithmetic {

  lemma {:induction false} MulMonotone(a: nat, b: nat, c: nat)
    requires a <= b
    ensures a * c <= b * c
  {
    if a < b {
      MulMonotone(a, b - 1, c);
      assert b * c == (b - 1) * c + c;
    }
  }

  // Strictly fewer rows end before one more row begins.
  lemma RowsGrow(y: nat, row: nat, width: nat)
    requires y < row
    ensures y * width + width <= row * width
  {
    MulMonotone(y + 1, row, width);
    assert (y + 1) * width == y * width + width;
  }

  // Quotient and remainder are determined by q * width + r.
  lemma DivModUnique(q: nat, r: nat, width: nat)
    requires r < width
    ensures (q * width + r) / width == q && (q * width + r) % width == r
  {
    var n := q * width + r;
    var q', r' := n / width, n % width;
    assert n == q' * width + r';
    if q' < q {
      RowsGrow(q', q, width);
    } else if q < q' {
      RowsGrow(q, q', width);
    }
  }

  lemma DivBound(n: nat, width: nat, height: nat)
    requires n < height * width
    ensures width != 0 && n / width < height && n % width < width
    ensures n == (n / width) * width + n % width
  {
    if n / width >= height {
      MulMonotone(height, n / width, width);
    }
  }

  // n steps of a width, by repeated addition.
  function Steps(n: nat, width: nat): nat {
    if n == 0 then 0 else Steps(n - 1, width) + width
  }

  lemma {:induction false} StepsAre(n: nat, width: nat)
    ensures Steps(n, width) == n * width
  {
    if n > 0 {
      StepsAre(n - 1, width);
      assert n * width == (n - 1) * width + width;
    }
  }

  lemma {:induction false} StepsGrow(n: nat, n': nat, width: nat)
    requires n <= n'
    ensures Steps(n, width) <= Steps(n', width)
  {
    if n < n' { StepsGrow(n, n' - 1, width); }
  }

  // What whole steps leave over.
  function Rest(n: nat, width: nat): nat
    requires width > 0
  {
    n % width
  }

  lemma RestBelow(n: nat, width: nat) returns (steps: nat)
    requires width > 0
    ensures steps == n / width && n == Steps(steps, width) + Rest(n, width) && Rest(n, width) < width
  {
    steps := n / width;
    StepsAre(steps, width);
  }

  lemma RestIs(n: nat, width: nat, steps: nat, rest: nat)
    requires rest < width && n == Steps(steps, width) + rest
    ensures Rest(n, width) == rest
  {
    StepsAre(steps, width);
    DivModUnique(steps, rest, width);
  }

  lemma {:induction false} DoubleSteps(n: nat, width: nat)
    ensures Steps(n, 2 * width) == Steps(2 * n, width)
  {
    if n > 0 {
      DoubleSteps(n - 1, width);
      assert Steps(2 * n, width) == Steps(2 * n - 1, width) + width;
      assert Steps(2 * n - 1, width) == Steps(2 * (n - 1), width) + width;
    }
  }

  // What double steps leave over, single steps reduce to what single steps leave over.
  lemma RestOfRest(n: nat, width: nat)
    requires width > 0
    ensures Rest(Rest(n, 2 * width), width) == Rest(n, width)
  {
    hide Rest;
    var q := RestBelow(n, 2 * width);
    var r := Rest(n, 2 * width);
    DoubleSteps(q, width);
    if r < width {
      RestIs(r, width, 0, r);
      RestIs(n, width, 2 * q, r);
    } else {
      RestIs(r, width, 1, r - width);
      RestIs(n, width, 2 * q + 1, r - width);
    }
  }

  lemma RestOfWhole(width: nat)
    requires width > 0
    ensures Rest(0, width) == 0 && Rest(width, width) == 0
  {
    RestIs(0, width, 0, 0);
    RestIs(width, width, 1, 0);
  }
}
