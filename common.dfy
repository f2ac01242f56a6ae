/** Shared vocabulary of the dashboard model: row identifiers, optional values
    and the integer rounding that stands for `Math.round` on ratios. */
module Common {

  /** Row identifiers are opaque strings (UUIDs issued by the record store). */
  type Id = string

  datatype Option<T> = None | Some(value: T) {
    /** `x || d` / `x ?? d` on a nullable value. */
    function GetOr(default: T): T {
      match this
      case Some(v) => v
      case None => default
    }
  }

  /** `Math.round((a / b) * 100)` for a non-negative ratio `a / b`: the
      integer nearest to `100 * a / b`, halves rounded up. */
  function RoundPercent(a: nat, b: nat): (r: nat)
    requires b > 0
    ensures 2 * b * r <= 200 * a + b < 2 * b * (r + 1)
    ensures a <= b ==> r <= 100
    ensures a == 0 ==> r == 0
    ensures a == b ==> r == 100
    ensures a < b < 200 ==> r < 100
    ensures 0 < a && b <= 200 ==> r > 0
  {
    RoundPercentBounds(a, b);
    (200 * a + b) / (2 * b)
  }

  lemma RoundPercentBounds(a: nat, b: nat)
    requires b > 0
    ensures var r := (200 * a + b) / (2 * b);
      && 2 * b * r <= 200 * a + b < 2 * b * (r + 1)
      && (a <= b ==> r <= 100)
      && (a == 0 ==> r == 0)
      && (a == b ==> r == 100)
      && (a < b < 200 ==> r < 100)
      && (0 < a && b <= 200 ==> r > 0)
  {
    var n, d := 200 * a + b, 2 * b;
    var r := n / d;
    DivBounds(n, d);
    assert d * (r + 1) == d * r + d;
    if r > 100 {
      MulMonotone(d, 101, r);
    }
    if r >= 100 {
      MulMonotone(d, 100, r);
    }
    if r > 0 {
      MulMonotone(d, 1, r);
    }
    if r < 100 {
      MulMonotone(d, r + 1, 100);
    }
    if r == 0 {
      assert d * (r + 1) == d;
    }
  }

  lemma DivBounds(n: nat, d: nat)
    requires d > 0
    ensures d * (n / d) <= n < d * (n / d + 1)
  {
    assert n == d * (n / d) + n % d;
  }

  lemma MulMonotone(c: nat, x: int, y: int)
    requires x <= y
    ensures c * x <= c * y
  {
    assert c * y - c * x == c * (y - x);
  }

  /** `Math.ceil(a / b)` for a positive divisor: the least `r` with
      `a <= b * r`. */
  function CeilDiv(a: int, b: int): (r: int)
    requires b > 0
    ensures b * (r - 1) < a <= b * r
  {
    (a + b - 1) / b
  }
}
