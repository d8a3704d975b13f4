/** Facts about division by an unknown positive number. */
module Division {

  lemma NotNegative(a: nat, b: nat)
    ensures a * b >= 0
  {
  }

  lemma AtLeastOnce(k: nat, d: nat)
    requires k > 0
    ensures k * d >= d
  {
  }

  lemma LessByFactor(a: nat, b: nat, d: nat)
    requires a * d < b * d
    ensures a < b
  {
  }

  /** Dividing by at least two makes a number smaller, but not nothing while the divisor fits. */
  lemma Shrinks(x: nat, d: nat)
    requires d >= 2
    ensures 0 <= x % d < d && x == x / d * d + x % d
    ensures 0 <= x / d && (x > 0 ==> x / d < x)
    ensures x >= d ==> x / d > 0
  {
    var q := x / d;
    assert x == q * d + x % d;
    NotNegative(q, d - 2);
    assert q * (d - 2) == q * d - 2 * q;
  }

  /** The quotient is unique. */
  lemma DivUnique(x: nat, q: nat, r: nat, d: nat)
    requires d > 0 && r < d && x == q * d + r
    ensures x / d == q
  {
    var gap := x / d - q;
    assert gap * d == r - x % d;
    if gap > 0 {
      AtLeastOnce(gap, d);
    }
    assert gap == 0;
  }

  lemma LowFits(t: nat, r: nat, a: nat, b: nat)
    requires t < b && r < a
    ensures t * a + r < a * b
  {
    NotNegative(b - 1 - t, a);
    assert (b - 1 - t) * a == b * a - a - t * a;
  }

  lemma Unfolded(q: nat, t: nat, r: nat, a: nat, b: nat)
    ensures (q * b + t) * a + r == q * (a * b) + (t * a + r)
  {
  }

  /** The digits of x in two places: q sits above t above r. */
  lemma TwoPlaces(x: nat, a: nat, b: nat) returns (q: nat, t: nat, r: nat)
    requires a > 0 && b > 0
    ensures q == x / a / b && t == x / a % b && r == x % a && r < a
    ensures x == q * (a * b) + (t * a + r) && t * a + r < a * b
  {
    var p := x / a;
    q, t, r := p / b, p % b, x % a;
    assert x == p * a + r && p == q * b + t;
    Unfolded(q, t, r, a, b);
    LowFits(t, r, a, b);
  }

  /** Dividing by a and then by b is dividing by their product, and the remainders go with it. */
  lemma DivDiv(x: nat, a: nat, b: nat)
    requires a > 0 && b > 0
    ensures a * b > 0
    ensures x / (a * b) == x / a / b
    ensures x % (a * b) / a == x / a % b
    ensures x % (a * b) % a == x % a
  {
    AtLeastOnce(b, a);
    NotNegative(x / a % b, a);
    var q, t, r := TwoPlaces(x, a, b);
    var low, m := t * a + r, a * b;
    DivUnique(x, q, low, m);
    RemUnique(x, q, low, m);
    DivUnique(low, t, r, a);
    RemUnique(low, t, r, a);
  }

  lemma RemUnique(x: nat, q: nat, r: nat, d: nat)
    requires d > 0 && r < d && x == q * d + r
    ensures x % d == r
  {
    DivUnique(x, q, r, d);
    assert x == x / d * d + x % d;
  }
}
