/** Small building blocks shared by every part of the practice-and-review engine. */
module Common {

  /** A value that may be absent: a nullable column, a missing query parameter,
      an unauthenticated user. */
  datatype Option<+T> = None | Some(value: T) {
    function GetOr(default: T): T {
      if Some? then value else default
    }
  }

  /** The outcome of a server action: a value, or the error it throws. */
  datatype Result<+T, +E> = Ok(value: T) | Err(error: E)

  /** JavaScript's `s || d` on a nullable string: an absent or empty string is
      falsy and gives way to the default. */
  function OrDefault(s: Option<string>, default: string): (r: string)
    ensures s.Some? && s.value != "" ==> r == s.value
    ensures (s.None? || s.value == "") ==> r == default
  {
    if s.Some? && s.value != "" then s.value else default
  }

  /** True when a query parameter is present and truthy (a non-empty string). */
  predicate Truthy(s: Option<string>) {
    s.Some? && s.value != ""
  }

  /** `Math.round(a / b * 100)` for a positive divisor, in exact arithmetic:
      the integer nearest to 100*a/b, halves rounded up. */
  function RoundPercent(a: int, b: int): (r: int)
    requires b > 0
    ensures 200 * a - b < 2 * b * r <= 200 * a + b
  {
    var n, d := 200 * a + b, 2 * b;
    var q := n / d;
    assert n == d * q + n % d && 0 <= n % d < d;
    q
  }

  /** A share of a whole is a percentage between 0 and 100. */
  lemma RoundPercentInRange(a: int, b: int)
    requires 0 <= a <= b && b > 0
    ensures 0 <= RoundPercent(a, b) <= 100
  {
    var r := RoundPercent(a, b);
    assert b * -1 < b * (2 * r);
    CancelFactor(b, -1, 2 * r);
    assert b * (2 * r) < b * 202;
    CancelFactor(b, 2 * r, 202);
  }

  /** A positive factor can be cancelled from a strict inequality. */
  lemma CancelFactor(b: int, x: int, y: int)
    requires b > 0 && b * x < b * y
    ensures x < y
  {
    assert b * (y - x) > 0;
  }

  /** The three colour tiers the pages use for bars and badges. */
  datatype Tier = Green | Yellow | Red {
    /** Severity: Green is the mildest, Red the most severe. */
    function Rank(): nat {
      match this
      case Green => 0
      case Yellow => 1
      case Red => 2
    }
  }
}
