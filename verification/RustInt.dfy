/** Machine integer arithmetic as Rust performs it. */
module RustInt {
  /** `a / b`: towards zero. */
  function TruncDiv(a: int, b: int): int
    requires b > 0
  {
    if a >= 0 then a / b else -((-a) / b)
  }

  /** `a % b`: with the sign of a. */
  function TruncMod(a: int, b: int): int
    requires b > 0
  {
    a - b * TruncDiv(a, b)
  }

  const I128_MAX: int := 0x7FFF_FFFF_FFFF_FFFF_FFFF_FFFF_FFFF_FFFF
  const I128_MIN: int := -0x8000_0000_0000_0000_0000_0000_0000_0000

  predicate InI128(x: int) {
    I128_MIN <= x <= I128_MAX
  }

  function Abs(x: int): nat {
    if x < 0 then -x else x
  }

  /** A vanishing remainder means that the division is exact. */
  lemma {:induction false} ExactDivision(a: int, b: int)
    requires b > 0 && TruncMod(a, b) == 0
    ensures TruncDiv(a, b) * b == a
  {}

  /** Division of a multiple is exact. */
  lemma {:induction false} DivideMultiple(k: int, b: int)
    requires b > 0
    ensures TruncMod(k * b, b) == 0 && TruncDiv(k * b, b) == k
  {
    if k >= 0 {
      EuclideanMultiple(k, b);
    } else {
      EuclideanMultiple(-k, b);
      assert -(k * b) == -k * b;
    }
  }

  lemma {:induction false} EuclideanMultiple(k: nat, b: int)
    requires b > 0
    ensures k * b >= 0 && (k * b) / b == k
  {
    var q, r := (k * b) / b, (k * b) % b;
    assert k * b == q * b + r;
    MulCompare(k, q, b, r);
  }

  lemma {:induction false} MulAtLeast(d: int, b: int)
    requires b > 0
    ensures d >= 1 ==> d * b >= b
    ensures d <= -1 ==> d * b <= -b
  {}

  lemma {:induction false} MulCompare(k: int, q: int, b: int, r: int)
    requires b > 0 && 0 <= r < b && k * b == q * b + r
    ensures k == q && r == 0
  {
    MulAtLeast(k - q, b);
    assert (k - q) * b == r;
  }

  lemma {:induction false} MulCancel(x: int, y: int, d: int)
    requires d != 0 && x * d == y * d
    ensures x == y
  {
    assert (x - y) * d == 0;
  }
}
