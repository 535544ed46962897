/** Fixed page geometry of the pagination estimator, and the integer
    ceiling division that stands in for `Math.ceil(h / pageHeight)`.
    All lengths are CSS pixels. */
module Geometry {

  /** Height of an A4 page at 96 DPI. */
  const PageHeight: nat := 1122

  /** Space already taken on the first page before the first section. */
  const FirstPageOffset: nat := 250

  /** Slack required below a section for it to stay on the current page. */
  const Margin: nat := 130

  /** Added to every measured section height (its styled padding). */
  const Padding: nat := 40

  /** Number of whole pages needed to hold `a` pixels on pages of height `b`:
      the least `q` with `q * b >= a`. */
  function CeilDiv(a: nat, b: nat): (q: nat)
    requires b > 0
    ensures q * b >= a
    ensures q == 0 || (q - 1) * b < a
    ensures a > 0 ==> q >= 1
    decreases a
  {
    if a == 0 then 0
    else if a <= b then 1
    else 1 + CeilDiv(a - b, b)
  }

  /** The ceiling agrees with Euclidean division: it is the floor quotient,
      plus one exactly when there is a remainder. */
  lemma CeilDivFloor(a: nat, b: nat)
    requires b > 0
    ensures a % b == 0 ==> CeilDiv(a, b) == a / b && CeilDiv(a, b) * b == a
    ensures a % b != 0 ==> CeilDiv(a, b) == a / b + 1 && (CeilDiv(a, b) - 1) * b + a % b == a
  {
    var d, r := a / b, a % b;
    assert a == d * b + r && 0 <= r < b;
    if r == 0 {
      CeilDivOfMultiple(a, b, d);
    } else {
      CeilDivWithRemainder(a, b, d, r);
    }
  }

  lemma CeilDivOfMultiple(a: nat, b: nat, d: nat)
    requires b > 0 && a == d * b
    ensures CeilDiv(a, b) == d
  {
    assert d == 0 || (d - 1) * b == d * b - b;
    CeilDivUnique(a, b, CeilDiv(a, b), d);
  }

  lemma CeilDivWithRemainder(a: nat, b: nat, d: nat, r: nat)
    requires b > 0 && a == d * b + r && 0 < r < b
    ensures CeilDiv(a, b) == d + 1
  {
    assert (d + 1) * b == d * b + b;
    assert (d + 1 - 1) * b == d * b;
    CeilDivUnique(a, b, CeilDiv(a, b), d + 1);
  }

  /** The least multiple bound is unique. */
  lemma CeilDivUnique(a: nat, b: nat, q: nat, k: nat)
    requires b > 0
    requires q * b >= a && (q == 0 || (q - 1) * b < a)
    requires k * b >= a && (k == 0 || (k - 1) * b < a)
    ensures q == k
  {
    if q < k {
      MulMonotone(q, k - 1, b);
    } else if k < q {
      MulMonotone(k, q - 1, b);
    }
  }

  lemma MulMonotone(x: nat, y: nat, b: nat)
    requires x <= y
    ensures x * b <= y * b
  {
    assert y * b == x * b + (y - x) * b;
  }
}
