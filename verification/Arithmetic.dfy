/** Integer division as in Go, and the facts about multiples of a resolution that the models need. */
module Arithmetic {

  /** Durations of periods are positive. */
  type Resolution = r: int | r > 0 witness 1

  /** Go's division truncates toward zero. */
  function Quot(a: int, b: Resolution): int {
    if a >= 0 then a / b else -(-a / b)
  }

  lemma Exact(a: int, r: Resolution)
    requires a % r == 0
    ensures (a / r) * r == a
  {
  }

  lemma Distribute(x: int, y: int, r: int)
    ensures (x + y) * r == x * r + y * r
    ensures (x - y) * r == x * r - y * r
  {
  }

  lemma ScaleLe(x: int, y: int, r: Resolution)
    requires x <= y
    ensures x * r <= y * r
  {
    Distribute(y, x, r);
    assert (y - x) * r >= 0;
  }

  lemma CancelLe(x: int, y: int, r: Resolution)
    requires x * r <= y * r
    ensures x <= y
  {
    if x > y {
      ScaleLe(y + 1, x, r);
      Distribute(y, 1, r);
    }
  }

  lemma CancelEq(x: int, y: int, r: Resolution)
    requires x * r == y * r
    ensures x == y
  {
    CancelLe(x, y, r);
    CancelLe(y, x, r);
  }

  lemma Euclid(a: int, r: Resolution)
    ensures a == (a / r) * r + a % r && 0 <= a % r < r
  {
  }

  /** Quotients and remainders are unique. */
  lemma Unique(q: int, m: int, x: int, rest: int, r: Resolution)
    requires q * r + m == x * r + rest && 0 <= m < r && 0 <= rest < r
    ensures q == x && m == rest
  {
    if q > x {
      ScaleLe(x + 1, q, r);
      Distribute(x, 1, r);
    } else if q < x {
      ScaleLe(q + 1, x, r);
      Distribute(q, 1, r);
    }
  }

  lemma DivMod(x: int, rest: int, r: Resolution)
    requires 0 <= rest < r
    ensures (x * r + rest) / r == x && (x * r + rest) % r == rest
  {
    var a := x * r + rest;
    Euclid(a, r);
    Unique(a / r, a % r, x, rest, r);
  }

  lemma MultipleDivides(x: int, r: Resolution)
    ensures (x * r) % r == 0 && (x * r) / r == x
  {
    DivMod(x, 0, r);
  }

  /** Truncated and floored division agree on multiples. */
  lemma QuotExact(a: int, r: Resolution)
    requires a % r == 0
    ensures Quot(a, r) == a / r && Quot(a, r) * r == a
  {
    Exact(a, r);
    if a < 0 {
      MultipleDivides(-(a / r), r);
      assert -(a / r) * r == -a;
    }
  }
}
