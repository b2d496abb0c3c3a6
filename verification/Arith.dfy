// Multiplication and floor division of integers.
module Arith {

  function Min(a: int, b: int): int { if a < b then a else b }

  function Max(a: int, b: int): int { if a < b then b else a }

  lemma MulMono(a: int, b: int, c: int)
    requires a <= b && 0 <= c
    ensures a * c <= b * c
  {
  }

  lemma MulCancel(a: int, b: int, c: int)
    requires 0 < c && a * c <= b * c
    ensures a <= b
  {
    if b < a {
      MulMono(b + 1, a, c);
    }
  }

  /** a / d is the q with q * d <= a < (q + 1) * d. */
  lemma FloorIs(a: int, d: int, q: int)
    requires 0 < d
    ensures q == a / d <==> q * d <= a < q * d + d
  {
    var p := a / d;
    assert p * d <= a < p * d + d;
    if q < p {
      MulMono(q + 1, p, d);
    } else if p < q {
      MulMono(p + 1, q, d);
    }
  }

  lemma FloorMono(a: int, b: int, d: int)
    requires 0 < d && a <= b
    ensures a / d <= b / d
  {
    FloorIs(a, d, a / d);
    FloorIs(b, d, b / d);
    if b / d < a / d {
      MulMono(b / d + 1, a / d, d);
    }
  }

  lemma FloorAtMost(a: int, d: int)
    requires 0 < d && 0 <= a
    ensures 0 <= a / d <= a
  {
    FloorIs(a, d, a / d);
    if a / d > a {
      MulMono(1, d, a / d);
    } else if a / d < 0 {
      MulMono(a / d, -1, d);
    }
  }

  lemma MultipleFloor(q: int, d: int)
    requires 0 < d
    ensures q * d / d == q
  {
    FloorIs(q * d, d, q);
  }
}
