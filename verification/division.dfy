/** Integer division as the add-on's Python performs it: `//` by the note-correction factor, and
    `math.ceil(a / b)` taken over exact rationals rather than floats. */
module Division {

  /** `q` is the floor of `a / b` for a positive `b`. */
  predicate IsFloorQuotient(q: int, a: int, b: int)
  {
    q * b <= a < (q + 1) * b
  }

  /** Python's `a // b` for a positive divisor. */
  function FloorDiv(a: int, b: int): (q: int)
    requires b > 0
    ensures IsFloorQuotient(q, a, b)
  {
    a / b
  }

  /** Multiplication by a positive number can be cancelled from a strict inequality. */
  lemma MulCancel(x: int, y: int, b: int)
    requires b > 0 && x * b < y * b
    ensures x < y
  {
  }

  /** There is only one floor quotient. */
  lemma FloorQuotientUnique(q: int, q': int, a: int, b: int)
    requires b > 0 && IsFloorQuotient(q, a, b) && IsFloorQuotient(q', a, b)
    ensures q == q'
  {
    MulCancel(q, q' + 1, b);
    MulCancel(q', q + 1, b);
  }

  /** Dividing a larger count never gives a smaller quotient. */
  lemma FloorDivMonotone(a: int, a': int, b: int)
    requires b > 0 && a <= a'
    ensures FloorDiv(a, b) <= FloorDiv(a', b)
  {
    var q, q' := FloorDiv(a, b), FloorDiv(a', b);
    MulCancel(q, q' + 1, b);
  }

  /** Dividing the parts separately loses at least as much as dividing the sum:
      `a // c + b // c <= (a + b) // c`. */
  lemma FloorDivSuperadditive(a: int, b: int, c: int)
    requires c > 0
    ensures FloorDiv(a, c) + FloorDiv(b, c) <= FloorDiv(a + b, c)
  {
    var qa, qb, qs := FloorDiv(a, c), FloorDiv(b, c), FloorDiv(a + b, c);
    assert (qa + qb) * c == qa * c + qb * c;
    MulCancel(qa + qb, qs + 1, c);
  }

  /** `math.ceil(a / b)` over exact rationals, for a non-zero divisor of either sign. */
  function CeilDiv(a: int, b: int): (q: int)
    requires b != 0
    ensures b > 0 ==> (q - 1) * b < a <= q * b
    ensures b < 0 ==> q * b <= a < (q - 1) * b
  {
    if b > 0 then -((-a) / b) else -(a / (-b))
  }

  /** `CeilDiv` is the ceiling of the exact rational quotient. */
  lemma CeilDivIsRealCeiling(a: int, b: int)
    requires b != 0
    ensures (CeilDiv(a, b) - 1) as real < (a as real) / (b as real) <= CeilDiv(a, b) as real
  {
    var q := CeilDiv(a, b);
    var x := (a as real) / (b as real);
    assert x * (b as real) == a as real;
    if b > 0 {
      assert ((q - 1) * b) as real == (q - 1) as real * (b as real);
      assert (q * b) as real == (q as real) * (b as real);
    } else {
      assert ((q - 1) * b) as real == (q - 1) as real * (b as real);
      assert (q * b) as real == (q as real) * (b as real);
    }
  }

  /** For a positive divisor the ceiling is the least `d` with `d * b >= a`. */
  lemma CeilDivIsLeast(a: int, b: int, d: int)
    requires b > 0 && d * b >= a
    ensures CeilDiv(a, b) <= d && CeilDiv(a, b) * b >= a
  {
    var q := CeilDiv(a, b);
    MulCancel(q - 1, d, b);
  }
}
